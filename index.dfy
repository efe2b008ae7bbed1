/** The in-memory B+ tree of src/index.rs.

    A node owns its children outright, so the tree is a value: inserting
    rebuilds the nodes on the path to the leaf, and the tree object replaces
    its root slot. The value passed to `insert` is discarded; a key that
    `search` finds yields `key * 10`.

    Both descents pick the first separator that is at least the key. A leaf
    split makes the separator the first key of the new right leaf, so a probe
    equal to a separator is sent to the left, where that key is not: see
    `SeparatorKeyLost`. An internal split keeps its middle key in the left
    node as well as promoting it, so the left node has as many keys as
    children; a key routed past the last child of such a node is neither
    inserted nor found. */
module Index {
  import opened Wrappers
  import opened Storage
  import opened Sorting

  /** The order the tests build trees with. */
  const ORDER: nat := 4

  datatype Node = Node(keys: seq<Key>, children: seq<Node>, isLeaf: bool)

  /** A promoted separator and the new right sibling. */
  datatype Split = Split(key: Key, sibling: Node)

  /** The rebuilt node and the split it passes up, if any. */
  datatype Inserted = Inserted(node: Node, split: Option<Split>)

  const DuplicateKey: string := "Duplicate key insertion is not allowed"
  const OrderTooSmall: string := "B+ Tree order must be at least 3"

  /** The key function of `Vec::<Key>::sort`. */
  function KeyOf(k: Key): int {
    k
  }

  /** The key function of `children.sort_by_key`: a child's first key, or
      the promoted key when the child has none. */
  function FirstKeyOr(c: Node, fallback: Key): int {
    if c.keys != [] then c.keys[0] else fallback
  }

  /** `keys.iter().position(|k| k >= &key).unwrap_or(keys.len())`. */
  function ChildIndex(keys: seq<Key>, key: Key): (i: nat)
    ensures i <= |keys|
    ensures forall j | 0 <= j < i :: keys[j] < key
    ensures i < |keys| ==> key <= keys[i]
  {
    if keys == [] || key <= keys[0] then 0 else 1 + ChildIndex(keys[1..], key)
  }

  /** `Value::from(key as u64 * 10)`: the cast and the product wrap modulo
      2^64. */
  function ValueOf(key: Key): (v: Value)
    ensures 0 <= key ==> v == key * 10
  {
    ((key % 0x1_0000_0000_0000_0000) * 10) % 0x1_0000_0000_0000_0000
  }

  /** Every internal node has at least as many children as keys. The tree
      only ever builds such nodes, and the internal split relies on it. */
  predicate Covered(node: Node)
    decreases node
  {
    (!node.isLeaf ==> |node.keys| <= |node.children|) &&
    forall i | 0 <= i < |node.children| :: Covered(node.children[i])
  }

  predicate AllCovered(cs: seq<Node>) {
    forall i | 0 <= i < |cs| :: Covered(cs[i])
  }

  /** No node holds more than order - 1 keys. */
  predicate Bounded(node: Node, order: nat)
    decreases node
  {
    |node.keys| <= order - 1 &&
    forall i | 0 <= i < |node.children| :: Bounded(node.children[i], order)
  }

  predicate AllBounded(cs: seq<Node>, order: nat) {
    forall i | 0 <= i < |cs| :: Bounded(cs[i], order)
  }

  /** Every leaf's keys are strictly increasing. */
  predicate LeavesIncreasing(node: Node)
    decreases node
  {
    (node.isLeaf ==> IncreasingBy(node.keys, KeyOf)) &&
    forall i | 0 <= i < |node.children| :: LeavesIncreasing(node.children[i])
  }

  predicate AllLeavesIncreasing(cs: seq<Node>) {
    forall i | 0 <= i < |cs| :: LeavesIncreasing(cs[i])
  }

  /** `keys.split_off(order / 2)` on an overfull leaf: the leaf keeps the
      lower half and the new leaf, whose first key is the separator, gets the
      rest. */
  function LeafSplit(keys: seq<Key>, children: seq<Node>, order: nat): (r: (Node, Split))
    requires 2 <= order <= |keys|
    ensures r.0.keys + r.1.sibling.keys == keys
    ensures |r.0.keys| == order / 2
    ensures r.1.sibling.keys != [] && r.1.key == r.1.sibling.keys[0]
    ensures r.0 == Node(r.0.keys, children, true) && r.1.sibling == Node(r.1.sibling.keys, [], true)
  {
    var mid := order / 2;
    (Node(keys[..mid], children, true), Split(keys[mid], Node(keys[mid..], [], true)))
  }

  /** `split_off(order / 2 + 1)` on the keys and the children of an overfull
      internal node: the separator is the middle key, and it stays in the left
      node too, which keeps as many children as keys. */
  function InternalSplit(keys: seq<Key>, children: seq<Node>, order: nat): (r: (Node, Split))
    requires order / 2 + 1 <= |keys| && order / 2 + 1 <= |children|
    ensures r.0.keys + r.1.sibling.keys == keys
    ensures r.0.children + r.1.sibling.children == children
    ensures |r.0.keys| == |r.0.children| == order / 2 + 1
    ensures r.1.key == keys[order / 2] == r.0.keys[|r.0.keys| - 1]
    ensures !r.0.isLeaf && !r.1.sibling.isLeaf
  {
    var mid := order / 2;
    (Node(keys[..mid + 1], children[..mid + 1], false),
     Split(keys[mid], Node(keys[mid + 1..], children[mid + 1..], false)))
  }

  /** The leaf arm of `insert_recursive`: a duplicate is an error; otherwise
      push, sort and split when over order - 1 keys. */
  function InsertLeaf(node: Node, key: Key, order: nat): (r: Result<Inserted, string>)
    requires order >= 3 && node.isLeaf
    ensures r.Failure? <==> key in node.keys
    ensures r.Success? ==> r.value.node == Node(r.value.node.keys, node.children, true)
    ensures r.Success? && r.value.split.Some? ==>
      r.value.split.value.sibling == Node(r.value.split.value.sibling.keys, [], true)
    ensures r.Success? && |node.keys| <= order - 1 ==> |r.value.node.keys| <= order - 1
    ensures r.Success? && |node.keys| <= order - 1 && r.value.split.Some? ==>
      |r.value.split.value.sibling.keys| <= order - 1
  {
    if key in node.keys then Failure(DuplicateKey)
    else
      var ks := SortByKey(node.keys + [key], KeyOf);
      if |ks| > order - 1 then
        var (left, split) := LeafSplit(ks, node.children, order);
        Success(Inserted(left, Some(split)))
      else
        Success(Inserted(Node(ks, node.children, true), None))
  }

  /** The internal arm after the child at pos split: push and sort the
      separator, push the sibling and sort the children by first key, and
      split when over order - 1 keys. */
  function Absorb(node: Node, pos: nat, child: Node, split: Split, order: nat): (r: Inserted)
    requires order >= 3 && !node.isLeaf && |node.keys| <= |node.children| && pos < |node.children|
    ensures !r.node.isLeaf
    ensures r.split.Some? ==> !r.split.value.sibling.isLeaf
    ensures |r.node.keys| <= |r.node.children|
    ensures r.split.Some? ==> |r.split.value.sibling.keys| <= |r.split.value.sibling.children|
    ensures |node.keys| <= order - 1 ==> |r.node.keys| <= order - 1
    ensures |node.keys| <= order - 1 && r.split.Some? ==> |r.split.value.sibling.keys| <= order - 1
    ensures var xs := node.children[pos := child] + [split.sibling];
      if r.split.None? then multiset(r.node.children) == multiset(xs)
      else multiset(r.node.children + r.split.value.sibling.children) == multiset(xs)
  {
    var ks := SortByKey(node.keys + [split.key], KeyOf);
    var xs := node.children[pos := child] + [split.sibling];
    var cs := SortByKey(xs, c => FirstKeyOr(c, split.key));
    if |ks| > order - 1 then
      var (left, up) := InternalSplit(ks, cs, order);
      Inserted(left, Some(up))
    else
      Inserted(Node(ks, cs, false), None)
  }

  /** `insert_recursive`. A duplicate in the target leaf is an error and
      changes nothing; a key routed past the last child changes nothing. */
  function InsertRec(node: Node, key: Key, order: nat): (r: Result<Inserted, string>)
    requires order >= 3 && Covered(node)
    ensures r.Success? ==> Covered(r.value.node)
    ensures r.Success? && r.value.split.Some? ==> Covered(r.value.split.value.sibling)
    decreases node
  {
    if node.isLeaf then InsertLeaf(node, key, order)
    else
      var pos := ChildIndex(node.keys, key);
      if pos < |node.children| then
        match InsertRec(node.children[pos], key, order)
        case Failure(e) => Failure(e)
        case Success(ins) =>
          RebuiltKeeps(node, pos, ins, order, Covered);
          Success(Rebuilt(node, pos, ins, order))
      else
        Success(Inserted(node, None))
  }

  /** The node InsertRec rebuilds around the result of inserting into its
      child at pos: the child is replaced in place, and a split is absorbed. */
  function Rebuilt(node: Node, pos: nat, ins: Inserted, order: nat): (r: Inserted)
    requires order >= 3 && !node.isLeaf && |node.keys| <= |node.children| && pos < |node.children|
    ensures !r.node.isLeaf && |r.node.keys| <= |r.node.children|
    ensures r.split.Some? ==> !r.split.value.sibling.isLeaf
    ensures r.split.Some? ==> |r.split.value.sibling.keys| <= |r.split.value.sibling.children|
    ensures |node.keys| <= order - 1 ==> |r.node.keys| <= order - 1
    ensures |node.keys| <= order - 1 && r.split.Some? ==> |r.split.value.sibling.keys| <= order - 1
  {
    if ins.split.None? then Inserted(node.(children := node.children[pos := ins.node]), None)
    else Absorb(node, pos, ins.node, ins.split.value, order)
  }

  /** The keys and children after a child split: the old keys plus the
      separator, in order, and the children in the order of their first keys,
      spread over the node and its new sibling. The keys need not be strictly
      increasing: a key inserted twice (see `DuplicateAccepted`) can reach an
      internal node twice. */
  lemma AbsorbContents(node: Node, pos: nat, child: Node, split: Split, order: nat)
    requires order >= 3 && !node.isLeaf && |node.keys| <= |node.children| && pos < |node.children|
    ensures var r := Absorb(node, pos, child, split, order);
      var keys: seq<Key> := r.node.keys + (if r.split.Some? then r.split.value.sibling.keys else []);
      multiset(keys) == multiset(node.keys) + multiset{split.key} && SortedBy(keys, KeyOf)
    ensures var r := Absorb(node, pos, child, split, order);
      var cs: seq<Node> := r.node.children + (if r.split.Some? then r.split.value.sibling.children else []);
      SortedBy(cs, c => FirstKeyOr(c, split.key))
  {
    var ks := SortByKey(node.keys + [split.key], KeyOf);
    var xs := node.children[pos := child] + [split.sibling];
    var cs := SortByKey(xs, c => FirstKeyOr(c, split.key));
    if |ks| > order - 1 {
      var (left, up) := InternalSplit(ks, cs, order);
      assert Absorb(node, pos, child, split, order) == Inserted(left, Some(up));
    } else {
      assert Absorb(node, pos, child, split, order) == Inserted(Node(ks, cs, false), None);
      assert ks + [] == ks && cs + [] == cs;
    }
  }

  /** Rebuilding after an insertion without a split replaces the child in
      place and keeps the keys; after a split the keys gain the separator. */
  lemma RebuiltContents(node: Node, pos: nat, ins: Inserted, order: nat)
    requires order >= 3 && !node.isLeaf && |node.keys| <= |node.children| && pos < |node.children|
    ensures var r := Rebuilt(node, pos, ins, order);
      ins.split.None? ==>
        r.split.None? && r.node.keys == node.keys && r.node.children == node.children[pos := ins.node]
    ensures var r := Rebuilt(node, pos, ins, order);
      var keys: seq<Key> := r.node.keys + (if r.split.Some? then r.split.value.sibling.keys else []);
      ins.split.Some? ==> multiset(keys) == multiset(node.keys) + multiset{ins.split.value.key}
  {
    if ins.split.Some? {
      AbsorbContents(node, pos, ins.node, ins.split.value, order);
    }
  }

  /** c is one of node's children, the rebuilt child or its new sibling. */
  predicate Origin(c: Node, node: Node, ins: Inserted) {
    c in node.children || c == ins.node || (ins.split.Some? && c == ins.split.value.sibling)
  }

  /** Rebuilding invents no child: every child of the rebuilt node and of its
      new sibling is an old child, the rebuilt child or that child's sibling. */
  lemma RebuiltChildren(node: Node, pos: nat, ins: Inserted, order: nat)
    requires order >= 3 && !node.isLeaf && |node.keys| <= |node.children| && pos < |node.children|
    ensures forall c | c in Rebuilt(node, pos, ins, order).node.children :: Origin(c, node, ins)
    ensures Rebuilt(node, pos, ins, order).split.Some? ==>
      forall c | c in Rebuilt(node, pos, ins, order).split.value.sibling.children :: Origin(c, node, ins)
  {
    var r := Rebuilt(node, pos, ins, order);
    var ys := node.children[pos := ins.node];
    assert forall c | c in ys :: Origin(c, node, ins) by {
      forall j | 0 <= j < |ys| ensures Origin(ys[j], node, ins) {
        if j != pos {
          assert ys[j] == node.children[j];
        }
      }
    }
    if ins.split.Some? {
      var xs := ys + [ins.split.value.sibling];
      var after := r.node.children + (if r.split.Some? then r.split.value.sibling.children else []);
      assert multiset(after) == multiset(xs);
      forall c | c in after ensures Origin(c, node, ins) {
        assert c in multiset(after);
        assert c in xs;
      }
      assert forall c | c in r.node.children :: c in after;
      if r.split.Some? {
        assert forall c | c in r.split.value.sibling.children :: c in after;
      }
    }
  }

  /** A property of nodes that holds of the old children, of the rebuilt
      child and of its new sibling holds of every child of the rebuilt node
      and of its new sibling. */
  lemma RebuiltKeeps(node: Node, pos: nat, ins: Inserted, order: nat, P: Node -> bool)
    requires order >= 3 && !node.isLeaf && |node.keys| <= |node.children| && pos < |node.children|
    requires forall i | 0 <= i < |node.children| :: P(node.children[i])
    requires P(ins.node) && (ins.split.Some? ==> P(ins.split.value.sibling))
    ensures var r := Rebuilt(node, pos, ins, order);
      forall i | 0 <= i < |r.node.children| :: P(r.node.children[i])
    ensures var r := Rebuilt(node, pos, ins, order);
      r.split.Some? ==> forall i | 0 <= i < |r.split.value.sibling.children| :: P(r.split.value.sibling.children[i])
  {
    var r := Rebuilt(node, pos, ins, order);
    RebuiltChildren(node, pos, ins, order);
    assert forall c | Origin(c, node, ins) :: P(c);
  }

  /** `search_recursive`: the same descent as `InsertRec`, ending in a
      membership test on the leaf (`binary_search` on its strictly increasing
      keys). A hit yields `key * 10`. */
  function SearchRec(node: Node, key: Key): (r: Option<Value>)
    ensures r.None? || r == Some(ValueOf(key))
    decreases node
  {
    if node.isLeaf then
      if key in node.keys then Some(ValueOf(key)) else None
    else
      var pos := ChildIndex(node.keys, key);
      if pos < |node.children| then SearchRec(node.children[pos], key) else None
  }

  /** The leaf both descents reach, if any. */
  function Target(node: Node, key: Key): (leaf: Option<Node>)
    ensures leaf.Some? ==> leaf.value.isLeaf
    decreases node
  {
    if node.isLeaf then Some(node)
    else
      var pos := ChildIndex(node.keys, key);
      if pos < |node.children| then Target(node.children[pos], key) else None
  }

  /** `insert`'s handling of the root: a split makes a new internal root with
      the separator as its one key and the old root and the new sibling as
      its children. */
  function InsertRoot(root: Node, key: Key, order: nat): (r: Result<Node, string>)
    requires order >= 3 && Covered(root)
    ensures r.Success? ==> Covered(r.value)
    ensures r.Failure? <==> InsertRec(root, key, order).Failure?
    ensures InsertRec(root, key, order).Success? ==> r == Success(Grown(InsertRec(root, key, order).value))
  {
    var ins := InsertRec(root, key, order);
    if ins.Failure? then Failure(ins.error)
    else
      GrownKeeps(ins.value, order);
      Success(Grown(ins.value))
  }

  /** The new root: the rebuilt old root, or, after a split, an internal node
      with the separator as its one key and the two halves as its children. */
  function Grown(ins: Inserted): (root: Node)
    ensures ins.split.None? ==> root == ins.node
    ensures ins.split.Some? ==>
      (!root.isLeaf && root.keys == [ins.split.value.key] && root.children == [ins.node, ins.split.value.sibling])
  {
    match ins.split
    case None => ins.node
    case Some(Split(newKey, sibling)) => Node([newKey], [ins.node, sibling], false)
  }

  /** A new root made from two bounded halves with strictly increasing
      leaves is itself bounded with strictly increasing leaves. */
  lemma GrownKeeps(ins: Inserted, order: nat)
    requires order >= 3
    ensures Covered(ins.node) && (ins.split.Some? ==> Covered(ins.split.value.sibling)) ==>
      Covered(Grown(ins))
    ensures Bounded(ins.node, order) && (ins.split.Some? ==> Bounded(ins.split.value.sibling, order)) ==>
      Bounded(Grown(ins), order)
    ensures LeavesIncreasing(ins.node) && (ins.split.Some? ==> LeavesIncreasing(ins.split.value.sibling)) ==>
      LeavesIncreasing(Grown(ins))
  {
  }

  /** Insert and search agree on duplicates: inserting fails exactly when
      searching finds the key. */
  lemma {:induction false} InsertFailsIffFound(node: Node, key: Key, order: nat)
    requires order >= 3 && Covered(node)
    ensures InsertRec(node, key, order).Failure? <==> SearchRec(node, key).Some?
    ensures InsertRec(node, key, order).Failure? ==> InsertRec(node, key, order).error == DuplicateKey
    decreases node
  {
    if !node.isLeaf {
      var pos := ChildIndex(node.keys, key);
      if pos < |node.children| {
        InsertFailsIffFound(node.children[pos], key, order);
      }
    }
  }

  /** Insert and search share the routing rule; where it selects no child,
      insert changes nothing and search finds nothing. */
  lemma NoChildNoEffect(node: Node, key: Key, order: nat)
    requires order >= 3 && Covered(node)
    requires !node.isLeaf && ChildIndex(node.keys, key) >= |node.children|
    ensures InsertRec(node, key, order) == Success(Inserted(node, None))
    ensures SearchRec(node, key) == None && Target(node, key) == None
  {
  }

  /** In a leaf: a new key joins the old keys in order; the keys stay strictly
      increasing; after a split the two halves concatenate to those keys. */
  lemma InsertIntoLeaf(node: Node, key: Key, order: nat)
    requires order >= 3 && node.isLeaf && IncreasingBy(node.keys, KeyOf) && key !in node.keys
    ensures var ins := InsertLeaf(node, key, order).value;
      var all := ins.node.keys + (if ins.split.Some? then ins.split.value.sibling.keys else []);
      all == InsertByKey(node.keys, key, KeyOf) && IncreasingBy(all, KeyOf) &&
      (ins.split.Some? <==> |node.keys| + 1 > order - 1)
  {
    var ks := SortByKey(node.keys + [key], KeyOf);
    assert SortedBy(node.keys, KeyOf);
    PushThenSort(node.keys, key, KeyOf);
    InsertIncreasing(node.keys, key, KeyOf);
    if |ks| > order - 1 {
      var (left, split) := LeafSplit(ks, node.children, order);
      assert InsertLeaf(node, key, order) == Success(Inserted(left, Some(split)));
      assert left.keys + split.sibling.keys == ks;
    } else {
      assert InsertLeaf(node, key, order) == Success(Inserted(Node(ks, node.children, true), None));
      assert ks + [] == ks;
    }
  }

  /** Both halves of a strictly increasing sequence, split anywhere, are
      strictly increasing. */
  lemma IncreasingSlices(s: seq<Key>, i: nat)
    requires IncreasingBy(s, KeyOf) && i <= |s|
    ensures IncreasingBy(s[..i], KeyOf) && IncreasingBy(s[i..], KeyOf)
  {
    assert forall a | 0 <= a < i :: s[..i][a] == s[a];
    assert forall a | 0 <= a < |s| - i :: s[i..][a] == s[i + a];
  }

  /** No insertion takes a node over order - 1 keys. */
  lemma {:induction false} InsertKeepsBound(node: Node, key: Key, order: nat)
    requires order >= 3 && Covered(node) && Bounded(node, order)
    requires InsertRec(node, key, order).Success?
    ensures Bounded(InsertRec(node, key, order).value.node, order)
    ensures InsertRec(node, key, order).value.split.Some? ==>
      Bounded(InsertRec(node, key, order).value.split.value.sibling, order)
    decreases node
  {
    if !node.isLeaf {
      var pos := ChildIndex(node.keys, key);
      if pos < |node.children| {
        InsertKeepsBound(node.children[pos], key, order);
        var ins := InsertRec(node.children[pos], key, order).value;
        RebuiltKeeps(node, pos, ins, order, c => Bounded(c, order));
      }
    }
  }

  /** Every rebuilt leaf stays strictly increasing. */
  lemma {:induction false} InsertKeepsLeavesIncreasing(node: Node, key: Key, order: nat)
    requires order >= 3 && Covered(node) && LeavesIncreasing(node)
    requires InsertRec(node, key, order).Success?
    ensures LeavesIncreasing(InsertRec(node, key, order).value.node)
    ensures InsertRec(node, key, order).value.split.Some? ==>
      LeavesIncreasing(InsertRec(node, key, order).value.split.value.sibling)
    decreases node
  {
    if node.isLeaf {
      InsertIntoLeaf(node, key, order);
      var ins := InsertLeaf(node, key, order).value;
      if ins.split.Some? {
        var all := ins.node.keys + ins.split.value.sibling.keys;
        IncreasingSlices(all, |ins.node.keys|);
        assert all[..|ins.node.keys|] == ins.node.keys;
        assert all[|ins.node.keys|..] == ins.split.value.sibling.keys;
      } else {
        assert ins.node.keys + [] == ins.node.keys;
      }
    } else {
      var pos := ChildIndex(node.keys, key);
      if pos < |node.children| {
        InsertKeepsLeavesIncreasing(node.children[pos], key, order);
        var ins := InsertRec(node.children[pos], key, order).value;
        RebuiltKeeps(node, pos, ins, order, LeavesIncreasing);
      }
    }
  }

  /** When the target leaf has room, the key is inserted without any split,
      a search then finds it, and every other probe gets the answer it got
      before. */
  lemma {:induction false} InsertWithRoom(node: Node, key: Key, probe: Key, order: nat)
    requires order >= 3 && Covered(node)
    requires Target(node, key).Some?
    requires key !in Target(node, key).value.keys && |Target(node, key).value.keys| < order - 1
    ensures InsertRec(node, key, order).Success?
    ensures InsertRec(node, key, order).value.split.None?
    ensures SearchRec(InsertRec(node, key, order).value.node, key) == Some(ValueOf(key))
    ensures probe != key ==> SearchRec(InsertRec(node, key, order).value.node, probe) == SearchRec(node, probe)
    decreases node
  {
    if node.isLeaf {
      var ks := SortByKey(node.keys + [key], KeyOf);
      assert key in multiset(ks);
      assert probe in ks <==> probe in multiset(node.keys + [key]);
    } else {
      var pos := ChildIndex(node.keys, key);
      InsertWithRoom(node.children[pos], key, probe, order);
    }
  }

  /** A full root leaf overflows when a key above all of its keys arrives:
      the keys split at order / 2 and the separator, the first key of the new
      right leaf, becomes the one key of a new internal root. */
  lemma RootLeafSplit(s: seq<Key>, key: Key, order: nat)
    requires order >= 3 && IncreasingBy(s, KeyOf) && |s| == order - 1
    requires forall i | 0 <= i < |s| :: s[i] < key
    ensures var ks := s + [key];
      InsertRoot(Node(s, [], true), key, order) ==
      Success(Node([ks[order / 2]], [Node(ks[..order / 2], [], true), Node(ks[order / 2..], [], true)], false))
  {
    assert SortedBy(s, KeyOf);
    PushThenSort(s, key, KeyOf);
    InsertAtEnd(s, key, KeyOf);
  }

  /** The separator of that split is stored in the tree but not found: a
      probe equal to a separator descends to the left, and the left leaf holds
      only smaller keys. Before the insertion the same probe was found. */
  lemma SeparatorKeyLost(s: seq<Key>, key: Key, order: nat)
    requires order >= 3 && IncreasingBy(s, KeyOf) && |s| == order - 1
    requires forall i | 0 <= i < |s| :: s[i] < key
    ensures var sep := s[order / 2];
      var t := InsertRoot(Node(s, [], true), key, order);
      SearchRec(Node(s, [], true), sep) == Some(ValueOf(sep)) &&
      t.Success? && sep in t.value.children[1].keys && SearchRec(t.value, sep) == None
  {
    var ks := s + [key];
    RootLeafSplit(s, key, order);
    var mid := order / 2;
    assert ks[mid] == s[mid];
    assert ks[mid..][0] == s[mid];
    assert s[mid] !in ks[..mid] by {
      forall i | 0 <= i < mid ensures ks[..mid][i] < s[mid] {
        assert ks[..mid][i] == s[i];
      }
    }
  }

  /** The same descent lets a stored key be inserted a second time: after
      the split, inserting the separator succeeds, a search now finds it in
      the left leaf, and the right leaf still holds it. */
  lemma DuplicateAccepted(s: seq<Key>, key: Key, order: nat)
    requires order >= 3 && IncreasingBy(s, KeyOf) && |s| == order - 1
    requires forall i | 0 <= i < |s| :: s[i] < key
    ensures var sep := s[order / 2];
      var t := InsertRoot(Node(s, [], true), key, order);
      t.Success? && (var u := InsertRoot(t.value, sep, order);
        u.Success? && |u.value.children| == 2 &&
        sep in u.value.children[0].keys && sep in u.value.children[1].keys)
  {
    var sep := s[order / 2];
    SeparatorKeyLost(s, key, order);
    var t := InsertRoot(Node(s, [], true), key, order).value;
    var right := t.children[1];
    InsertFailsIffFound(t, sep, order);
    InsertWithRoom(t, sep, sep, order);
    var ins := InsertRec(t, sep, order).value;
    assert ins.node.children[1] == right;
    assert ins.node.children[0] == InsertRec(t.children[0], sep, order).value.node;
  }

  /** The single-threaded test with order 4: its first three insertions
      fill the root leaf with 0, 1 and 2 (see `AppendToLeaf`); the fourth
      splits it, and 2, found before, is no longer found. */
  lemma FirstKeysOfTest()
    ensures SearchRec(Node([0, 1, 2], [], true), 2) == Some(ValueOf(2))
    ensures SearchRec(InsertRoot(Node([0, 1, 2], [], true), 3, ORDER).value, 2) == None
  {
    SeparatorKeyLost([0, 1, 2], 3, ORDER);
  }

  /** A key above every key of a root leaf with room is appended, and the
      root stays a leaf. */
  lemma AppendToLeaf(s: seq<Key>, key: Key, order: nat)
    requires order >= 3 && |s| < order - 1 && IncreasingBy(s, KeyOf)
    requires forall i | 0 <= i < |s| :: s[i] < key
    ensures InsertRoot(Node(s, [], true), key, order) == Success(Node(s + [key], [], true))
  {
    assert SortedBy(s, KeyOf);
    PushThenSort(s, key, KeyOf);
    InsertAtEnd(s, key, KeyOf);
    assert key !in s;
    assert InsertLeaf(Node(s, [], true), key, order) == Success(Inserted(Node(s + [key], [], true), None));
  }

  /** The tree: its order and its root slot. The unused buffer pool field is
      not modelled. */
  class BPlusTree {
    const order: nat
    var root: Option<Node>

    ghost predicate Valid()
      reads this
    {
      order >= 3 &&
      (root.Some? ==> Covered(root.value) && Bounded(root.value, order) && LeavesIncreasing(root.value))
    }

    constructor (order: nat)
      requires order >= 3
      ensures Valid() && this.order == order && root == Some(Node([], [], true))
    {
      this.order := order;
      root := Some(Node([], [], true));
    }

    /** `BPlusTree::new`: rejects an order below 3, otherwise starts from an
        empty root leaf. */
    static method New(order: nat) returns (r: Result<BPlusTree, string>)
      ensures r.Failure? <==> order < 3
      ensures r.Failure? ==> r.error == OrderTooSmall
      ensures r.Success? ==>
        fresh(r.value) && r.value.Valid() && r.value.order == order && r.value.root == Some(Node([], [], true))
    {
      if order < 3 {
        return Failure(OrderTooSmall);
      }
      var tree := new BPlusTree(order);
      r := Success(tree);
    }

    /** `insert`: the value is discarded. */
    method Insert(key: Key, value: Value) returns (r: Result<(), string>)
      requires Valid()
      modifies this`root
      ensures Valid()
      ensures old(root).None? ==> r == Success(()) && root == Some(Node([key], [], true))
      ensures old(root).Some? ==>
        var out := InsertRoot(old(root).value, key, order);
        (out.Failure? ==> r == Failure(out.error) && root == old(root)) &&
        (out.Success? ==> r == Success(()) && root == Some(out.value))
    {
      if root.None? {
        root := Some(Node([key], [], true));
        return Success(());
      }
      var node := root.value;
      var inserted := InsertRoot(node, key, order);
      if inserted.Failure? {
        return Failure(inserted.error);
      }
      InsertKeepsBound(node, key, order);
      InsertKeepsLeavesIncreasing(node, key, order);
      GrownKeeps(InsertRec(node, key, order).value, order);
      root := Some(inserted.value);
      r := Success(());
    }

    /** `search`: never an error, so the `Result` wrapper is dropped. */
    function Search(key: Key): (r: Option<Value>)
      reads this
      ensures r.None? || r == Some(ValueOf(key))
      ensures root.None? ==> r.None?
    {
      if root.None? then None else SearchRec(root.value, key)
    }
  }
}
