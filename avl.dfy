/** The AVL tree keyed by node coordinates (algorithms/avl_tree.py). It is
    used to drop duplicate nodes when the zones of a mesh are merged.

    A tree node stores its key, its two subtrees and the `height` and
    `balance` bookkeeping fields that the source rewrites after every insert
    and rotation. The key is an `Entry`: the coordinates the tree is ordered
    by, together with a reference (an index into the node arena) that stands
    for the source's Node object, which `find` hands back. */
module Avl {
  import opened Util
  import opened Geom

  /** NODE_COMPARE_ACCURACY = 10e-18, that is 1e-17. */
  const NODE_COMPARE_ACCURACY: real := 0.00000000000000001

  /** is_node_less: lexicographic on (x, y, z), where two components whose
      difference is at most `accuracy` count as equal. */
  function LessWithin(a: Vec, b: Vec, accuracy: real): bool {
    if Abs(a.x - b.x) > accuracy then a.x < b.x
    else if Abs(a.y - b.y) > accuracy then a.y < b.y
    else if Abs(a.z - b.z) > accuracy then a.z < b.z
    else false
  }

  /** The comparison exactly as the source writes it. */
  function IsNodeLess(a: Vec, b: Vec): bool {
    LessWithin(a, b, NODE_COMPARE_ACCURACY)
  }

  /** The tolerant comparison is a strict relation: irreflexive, and never
      true in both directions. */
  lemma IsNodeLessStrict(a: Vec, b: Vec)
    ensures !IsNodeLess(a, a)
    ensures !(IsNodeLess(a, b) && IsNodeLess(b, a))
  {
  }

  /** Components closer than the accuracy are ignored: two points that
      differ only by such amounts are not less than each other. */
  lemma IsNodeLessTolerance(a: Vec, b: Vec)
    requires Abs(a.x - b.x) <= NODE_COMPARE_ACCURACY
    requires Abs(a.y - b.y) <= NODE_COMPARE_ACCURACY
    requires Abs(a.z - b.z) <= NODE_COMPARE_ACCURACY
    ensures !IsNodeLess(a, b) && !IsNodeLess(b, a)
  {
  }

  /** The order the tree is proved correct for: the same comparison with a
      zero tolerance, which is the exact lexicographic order. */
  function Less(a: Vec, b: Vec): bool {
    LessWithin(a, b, 0.0)
  }

  lemma LessTransitive(a: Vec, b: Vec, c: Vec)
    requires Less(a, b) && Less(b, c)
    ensures Less(a, c)
  {
  }

  /** Neither point is less than the other exactly when they are equal. */
  lemma LessTrichotomy(a: Vec, b: Vec)
    ensures !Less(a, b) && !Less(b, a) <==> a == b
  {
  }

  datatype Entry = Entry(point: Vec, ref: nat)

  /** AVLTreeNode; Leaf is the source's None child. */
  datatype Tree = Leaf | Node(key: Entry, left: Tree, right: Tree, height: int, balance: int)

  /** _get_height: the stored height, 0 for an empty subtree. */
  function GetHeight(t: Tree): int {
    if t.Leaf? then 0 else t.height
  }

  /** A node whose height and balance are recomputed from its children's
      stored heights, as the source does after each insert and rotation. */
  function Mk(key: Entry, left: Tree, right: Tree): Tree {
    Node(key, left, right,
         Max(GetHeight(left), GetHeight(right)) + 1,
         GetHeight(left) - GetHeight(right))
  }

  // ---------------------------------------------------------------------
  // Specification functions

  /** The true height of a tree. */
  function Height(t: Tree): nat {
    match t
    case Leaf => 0
    case Node(_, l, r, _, _) => Max(Height(l), Height(r)) + 1
  }

  /** Every stored height and balance agrees with the tree's shape. */
  ghost predicate Wf(t: Tree) {
    match t
    case Leaf => true
    case Node(_, l, r, h, b) =>
      Wf(l) && Wf(r) && h == Max(Height(l), Height(r)) + 1 && b == Height(l) - Height(r)
  }

  /** Every node's balance lies in -1..1. */
  ghost predicate Balanced(t: Tree) {
    match t
    case Leaf => true
    case Node(_, l, r, _, b) => Balanced(l) && Balanced(r) && -1 <= b <= 1
  }

  ghost predicate IsAvl(t: Tree) {
    Wf(t) && Balanced(t)
  }

  ghost function Keys(t: Tree): set<Entry> {
    match t
    case Leaf => {}
    case Node(k, l, r, _, _) => Keys(l) + {k} + Keys(r)
  }

  ghost function Points(t: Tree): set<Vec> {
    set e | e in Keys(t) :: e.point
  }

  function Inorder(t: Tree): seq<Entry> {
    match t
    case Leaf => []
    case Node(k, l, r, _, _) => Inorder(l) + [k] + Inorder(r)
  }

  /** Binary search tree order: keys on the left are less than the node's
      key and keys on the right are greater. */
  ghost predicate Bst(t: Tree) {
    match t
    case Leaf => true
    case Node(k, l, r, _, _) =>
      Bst(l) && Bst(r) &&
      (forall e {:trigger Less(e.point, k.point)} :: e in Keys(l) ==> Less(e.point, k.point)) &&
      (forall e {:trigger Less(k.point, e.point)} :: e in Keys(r) ==> Less(k.point, e.point))
  }

  lemma WfHeight(t: Tree)
    requires Wf(t)
    ensures GetHeight(t) == Height(t)
  {
  }

  // ---------------------------------------------------------------------
  // Rotations and rebalancing

  /** rotate_right: the left child becomes the root. */
  function RotateRight(t: Tree): (r: Tree)
    requires t.Node? && t.left.Node?
    ensures r.Node?
  {
    var pivot := t.left;
    Mk(pivot.key, pivot.left, Mk(t.key, pivot.right, t.right))
  }

  /** rotate_left: the right child becomes the root. */
  function RotateLeft(t: Tree): (r: Tree)
    requires t.Node? && t.right.Node?
    ensures r.Node?
  {
    var pivot := t.right;
    Mk(pivot.key, Mk(t.key, t.left, pivot.left), pivot.right)
  }

  /** rebalance: a single or double rotation chosen from the stored balance
      of the root and of its heavy child. */
  function Rebalance(t: Tree): Tree
    requires t.Node? && Wf(t.left) && Wf(t.right)
    requires t.balance == GetHeight(t.left) - GetHeight(t.right)
  {
    WfHeight(t.left);
    WfHeight(t.right);
    if t.balance == 2 then
      if t.left.balance < 0 then
        WfHeight(t.left.right);
        RotateRight(t.(left := RotateLeft(t.left)))
      else
        RotateRight(t)
    else if t.balance == -2 then
      if t.right.balance > 0 then
        WfHeight(t.right.left);
        RotateLeft(t.(right := RotateRight(t.right)))
      else
        RotateLeft(t)
    else
      t
  }

  /** A rotation regroups the in-order sequence without changing it. */
  lemma Regroup<T>(a: seq<T>, x: T, b: seq<T>, y: T, c: seq<T>)
    ensures (a + [x] + b) + [y] + c == a + [x] + (b + [y] + c)
  {
  }

  lemma RotateRightKeepsOrder(t: Tree)
    requires t.Node? && t.left.Node?
    ensures Inorder(RotateRight(t)) == Inorder(t)
    ensures Keys(RotateRight(t)) == Keys(t)
  {
    var p := t.left;
    var a, b, c := Inorder(p.left), Inorder(p.right), Inorder(t.right);
    assert Inorder(RotateRight(t)) == a + [p.key] + (b + [t.key] + c);
    assert Inorder(t) == (a + [p.key] + b) + [t.key] + c;
    Regroup(a, p.key, b, t.key, c);
    RotateRightKeepsKeys(t);
  }

  lemma RotateRightKeepsKeys(t: Tree)
    requires t.Node? && t.left.Node?
    ensures Keys(RotateRight(t)) == Keys(t)
  {
    var p := t.left;
    assert Keys(RotateRight(t)) == Keys(p.left) + {p.key} + (Keys(p.right) + {t.key} + Keys(t.right));
  }

  lemma RotateLeftKeepsOrder(t: Tree)
    requires t.Node? && t.right.Node?
    ensures Inorder(RotateLeft(t)) == Inorder(t)
    ensures Keys(RotateLeft(t)) == Keys(t)
  {
    var p := t.right;
    var a, b, c := Inorder(t.left), Inorder(p.left), Inorder(p.right);
    assert Inorder(RotateLeft(t)) == (a + [t.key] + b) + [p.key] + c;
    assert Inorder(t) == a + [t.key] + (b + [p.key] + c);
    Regroup(a, t.key, b, p.key, c);
    RotateLeftKeepsKeys(t);
  }

  lemma RotateLeftKeepsKeys(t: Tree)
    requires t.Node? && t.right.Node?
    ensures Keys(RotateLeft(t)) == Keys(t)
  {
    var p := t.right;
    assert Keys(RotateLeft(t)) == (Keys(t.left) + {t.key} + Keys(p.left)) + {p.key} + Keys(p.right);
  }

  lemma {:induction false} RotateRightKeepsBst(t: Tree)
    requires t.Node? && t.left.Node? && Bst(t)
    ensures Bst(RotateRight(t))
  {
    var p := t.left;
    forall e | e in Keys(t.right)
      ensures Less(p.key.point, e.point)
    {
      LessTransitive(p.key.point, t.key.point, e.point);
    }
  }

  lemma {:induction false} RotateLeftKeepsBst(t: Tree)
    requires t.Node? && t.right.Node? && Bst(t)
    ensures Bst(RotateLeft(t))
  {
    var p := t.right;
    forall e | e in Keys(t.left)
      ensures Less(e.point, p.key.point)
    {
      LessTransitive(e.point, t.key.point, p.key.point);
    }
  }

  /** Rebalancing keeps the in-order sequence, the key set and the search
      order. */
  lemma RebalanceKeepsOrder(t: Tree)
    requires t.Node? && Wf(t.left) && Wf(t.right)
    requires t.balance == GetHeight(t.left) - GetHeight(t.right)
    ensures Inorder(Rebalance(t)) == Inorder(t)
    ensures Keys(Rebalance(t)) == Keys(t)
    ensures Bst(t) ==> Bst(Rebalance(t))
  {
    WfHeight(t.left);
    WfHeight(t.right);
    if t.balance == 2 {
      if t.left.balance < 0 {
        WfHeight(t.left.right);
        var t1 := t.(left := RotateLeft(t.left));
        RotateLeftKeepsOrder(t.left);
        RotateRightKeepsOrder(t1);
        if Bst(t) {
          RotateLeftKeepsBst(t.left);
          RotateRightKeepsBst(t1);
        }
      } else {
        RotateRightKeepsOrder(t);
        if Bst(t) {
          RotateRightKeepsBst(t);
        }
      }
    } else if t.balance == -2 {
      if t.right.balance > 0 {
        WfHeight(t.right.left);
        var t1 := t.(right := RotateRight(t.right));
        RotateRightKeepsOrder(t.right);
        RotateLeftKeepsOrder(t1);
        if Bst(t) {
          RotateRightKeepsBst(t.right);
          RotateLeftKeepsBst(t1);
        }
      } else {
        RotateLeftKeepsOrder(t);
        if Bst(t) {
          RotateLeftKeepsBst(t);
        }
      }
    }
  }

  /** A node built by Mk over well-formed children is well formed. */
  lemma MkWf(k: Entry, l: Tree, r: Tree)
    requires Wf(l) && Wf(r)
    ensures Wf(Mk(k, l, r)) && Height(Mk(k, l, r)) == Max(Height(l), Height(r)) + 1
  {
    WfHeight(l);
    WfHeight(r);
  }

  /** A node over two AVL trees whose heights differ by at most one is an
      AVL tree one higher than the taller. */
  lemma MkAvl(k: Entry, l: Tree, r: Tree)
    requires IsAvl(l) && IsAvl(r) && -1 <= Height(l) - Height(r) <= 1
    ensures IsAvl(Mk(k, l, r)) && Height(Mk(k, l, r)) == Max(Height(l), Height(r)) + 1
  {
    MkWf(k, l, r);
  }

  /** The children of a non-empty AVL tree are AVL trees, with its stored
      heights. */
  lemma InnerChild(t: Tree, c: Tree)
    requires IsAvl(t) && t.Node? && (c == t.left || c == t.right) && c.Node?
    ensures IsAvl(c) && IsAvl(c.left) && IsAvl(c.right)
    ensures Height(c) == Max(Height(c.left), Height(c.right)) + 1
    ensures -1 <= Height(c.left) - Height(c.right) <= 1 && c.balance == Height(c.left) - Height(c.right)
  {
  }

  /** Left-left case: a single right rotation of a node whose left subtree is
      two higher than its right one and not right-heavy. */
  lemma RotateRightBalances(k: Entry, l: Tree, r: Tree)
    requires IsAvl(l) && IsAvl(r) && Height(l) == Height(r) + 2
    requires l.Node? && l.balance >= 0
    ensures IsAvl(RotateRight(Mk(k, l, r)))
    ensures Height(l) <= Height(RotateRight(Mk(k, l, r))) <= Height(l) + 1
  {
    MkWf(k, l.right, r);
    MkWf(l.key, l.left, Mk(k, l.right, r));
  }

  /** Left-right case: a left rotation of the left child, then a right
      rotation of the node. */
  lemma DoubleRightBalances(k: Entry, l: Tree, r: Tree, h: int, b: int)
    requires IsAvl(l) && IsAvl(r) && Height(l) == Height(r) + 2
    requires l.Node? && l.balance < 0
    ensures l.right.Node?
    ensures var t := Node(k, RotateLeft(l), r, h, b);
      IsAvl(RotateRight(t)) && Height(RotateRight(t)) == Height(l)
  {
    var lr := l.right;
    InnerChild(l, lr);
    assert Height(lr) == Height(r) + 1 && Height(l.left) == Height(r);
    var a, c := Mk(l.key, l.left, lr.left), Mk(k, lr.right, r);
    MkAvl(l.key, l.left, lr.left);
    MkAvl(k, lr.right, r);
    MkAvl(lr.key, a, c);
    assert RotateLeft(l) == Mk(lr.key, a, lr.right);
    assert RotateRight(Node(k, RotateLeft(l), r, h, b)) == Mk(lr.key, a, c);
  }

  /** Right-right case, the mirror of RotateRightBalances. */
  lemma RotateLeftBalances(k: Entry, l: Tree, r: Tree)
    requires IsAvl(l) && IsAvl(r) && Height(r) == Height(l) + 2
    requires r.Node? && r.balance <= 0
    ensures IsAvl(RotateLeft(Mk(k, l, r)))
    ensures Height(r) <= Height(RotateLeft(Mk(k, l, r))) <= Height(r) + 1
  {
    MkWf(k, l, r.left);
    MkWf(r.key, Mk(k, l, r.left), r.right);
  }

  /** Right-left case, the mirror of DoubleRightBalances. */
  lemma DoubleLeftBalances(k: Entry, l: Tree, r: Tree, h: int, b: int)
    requires IsAvl(l) && IsAvl(r) && Height(r) == Height(l) + 2
    requires r.Node? && r.balance > 0
    ensures r.left.Node?
    ensures var t := Node(k, l, RotateRight(r), h, b);
      IsAvl(RotateLeft(t)) && Height(RotateLeft(t)) == Height(r)
  {
    var rl := r.left;
    InnerChild(r, rl);
    assert Height(rl) == Height(l) + 1 && Height(r.right) == Height(l);
    var a, c := Mk(k, l, rl.left), Mk(r.key, rl.right, r.right);
    MkAvl(k, l, rl.left);
    MkAvl(r.key, rl.right, r.right);
    MkAvl(rl.key, a, c);
    assert RotateRight(r) == Mk(rl.key, rl.left, c);
    assert RotateLeft(Node(k, l, RotateRight(r), h, b)) == Mk(rl.key, a, c);
  }

  /** rebalance restores the AVL property for a node whose subtrees are AVL
      trees differing in height by at most two; the node keeps its height
      when no rotation is needed, and otherwise ends up between the taller
      subtree's height and one more. */
  lemma RebalanceBalances(k: Entry, l: Tree, r: Tree)
    requires IsAvl(l) && IsAvl(r)
    requires -2 <= Height(l) - Height(r) <= 2
    ensures IsAvl(Rebalance(Mk(k, l, r)))
    ensures -1 <= Height(l) - Height(r) <= 1 ==> Rebalance(Mk(k, l, r)) == Mk(k, l, r)
    ensures Max(Height(l), Height(r)) <= Height(Rebalance(Mk(k, l, r))) <= Max(Height(l), Height(r)) + 1
  {
    MkWf(k, l, r);
    var t := Mk(k, l, r);
    if t.balance == 2 {
      if l.balance < 0 {
        DoubleRightBalances(k, l, r, t.height, t.balance);
      } else {
        RotateRightBalances(k, l, r);
      }
    } else if t.balance == -2 {
      if r.balance > 0 {
        DoubleLeftBalances(k, l, r, t.height, t.balance);
      } else {
        RotateLeftBalances(k, l, r);
      }
    }
  }

  // ---------------------------------------------------------------------
  // Insert and find

  /** _insert: the new subtree root, or None when the key's coordinates are
      already in the tree (the source raises ValueError before changing
      anything). */
  function InsertInto(t: Tree, key: Entry): (r: Option<Tree>)
    requires Wf(t)
    ensures r.Some? ==> Wf(r.value) && r.value.Node?
    decreases t
  {
    match t
    case Leaf => Some(Node(key, Leaf, Leaf, 1, 0))
    case Node(k, l, rt, _, _) =>
      if Less(key.point, k.point) then
        match InsertInto(l, key)
        case None => None
        case Some(l2) =>
          MkWf(k, l2, rt);
          RebalanceWf(Mk(k, l2, rt));
          Some(Rebalance(Mk(k, l2, rt)))
      else if Less(k.point, key.point) then
        match InsertInto(rt, key)
        case None => None
        case Some(r2) =>
          MkWf(k, l, r2);
          RebalanceWf(Mk(k, l, r2));
          Some(Rebalance(Mk(k, l, r2)))
      else
        None
  }

  lemma RebalanceWf(t: Tree)
    requires Wf(t) && t.Node?
    ensures Wf(Rebalance(t)) && Rebalance(t).Node?
  {
    WfHeight(t.left);
    WfHeight(t.right);
    if t.balance == 2 {
      if t.left.balance < 0 {
        WfHeight(t.left.right);
        MkWf(t.left.key, t.left.left, t.left.right.left);
        MkWf(t.key, t.left.right.right, t.right);
        MkWf(t.left.right.key, Mk(t.left.key, t.left.left, t.left.right.left), Mk(t.key, t.left.right.right, t.right));
      } else {
        MkWf(t.key, t.left.right, t.right);
        MkWf(t.left.key, t.left.left, Mk(t.key, t.left.right, t.right));
      }
    } else if t.balance == -2 {
      if t.right.balance > 0 {
        WfHeight(t.right.left);
        MkWf(t.key, t.left, t.right.left.left);
        MkWf(t.right.key, t.right.left.right, t.right.right);
        MkWf(t.right.left.key, Mk(t.key, t.left, t.right.left.left), Mk(t.right.key, t.right.left.right, t.right.right));
      } else {
        MkWf(t.key, t.left, t.right.left);
        MkWf(t.right.key, Mk(t.key, t.left, t.right.left), t.right.right);
      }
    }
  }

  /** _find: the tree node whose key neither precedes nor follows `q`. */
  function FindIn(t: Tree, q: Vec): Option<Entry> {
    match t
    case Leaf => None
    case Node(k, l, r, _, _) =>
      if Less(q, k.point) then FindIn(l, q)
      else if Less(k.point, q) then FindIn(r, q)
      else Some(k)
  }

  /** find returns a stored key with the queried coordinates, and None
      exactly when no stored key has them. */
  lemma {:induction false} FindInCorrect(t: Tree, q: Vec)
    requires Bst(t)
    ensures FindIn(t, q).Some? <==> q in Points(t)
    ensures FindIn(t, q).Some? ==> FindIn(t, q).value in Keys(t) && FindIn(t, q).value.point == q
  {
    match t
    case Leaf =>
    case Node(k, l, r, _, _) =>
      FindInCorrect(l, q);
      FindInCorrect(r, q);
      if Less(q, k.point) {
        forall e | e in Keys(r) ensures e.point != q {
          if e.point == q { LessTransitive(q, k.point, q); }
        }
        assert q != k.point;
      } else if Less(k.point, q) {
        forall e | e in Keys(l) ensures e.point != q {
          if e.point == q { LessTransitive(q, k.point, q); }
        }
        assert q != k.point;
      } else {
        LessTrichotomy(q, k.point);
      }
  }

  /** Inserting a key whose coordinates are new keeps the tree a balanced
      search tree, adds exactly that key, and grows the height by at most
      one; a key whose coordinates are present is refused. */
  lemma {:induction false} InsertIntoCorrect(t: Tree, key: Entry)
    requires IsAvl(t) && Bst(t)
    ensures InsertInto(t, key).None? <==> key.point in Points(t)
    ensures InsertInto(t, key).Some? ==> InsertedAsSpecified(t, key, InsertInto(t, key).value)
    decreases t
  {
    match t
    case Leaf =>
    case Node(k, l, r, _, _) =>
      FindInCorrect(t, key.point);
      if Less(key.point, k.point) {
        InsertIntoCorrect(l, key);
        FindInCorrect(l, key.point);
        if InsertInto(l, key).Some? {
          InsertLeftStep(t, key, InsertInto(l, key).value);
        }
      } else if Less(k.point, key.point) {
        InsertIntoCorrect(r, key);
        FindInCorrect(r, key.point);
        if InsertInto(r, key).Some? {
          InsertRightStep(t, key, InsertInto(r, key).value);
        }
      } else {
        LessTrichotomy(key.point, k.point);
      }
  }

  /** What a successful insert of `key` into `t` promises of the result. */
  ghost predicate InsertedAsSpecified(t: Tree, key: Entry, t2: Tree) {
    IsAvl(t2) && Bst(t2) && Keys(t2) == Keys(t) + {key} &&
    Height(t) <= Height(t2) <= Height(t) + 1
  }

  lemma InsertLeftStep(t: Tree, key: Entry, l2: Tree)
    requires t.Node? && IsAvl(t) && Bst(t) && Less(key.point, t.key.point)
    requires InsertedAsSpecified(t.left, key, l2)
    ensures Wf(Mk(t.key, l2, t.right))
    ensures InsertedAsSpecified(t, key, Rebalance(Mk(t.key, l2, t.right)))
  {
    var k, r := t.key, t.right;
    MkWf(k, l2, r);
    RebalanceBalances(k, l2, r);
    RebalanceKeepsOrder(Mk(k, l2, r));
  }

  lemma InsertRightStep(t: Tree, key: Entry, r2: Tree)
    requires t.Node? && IsAvl(t) && Bst(t) && Less(t.key.point, key.point)
    requires InsertedAsSpecified(t.right, key, r2)
    ensures Wf(Mk(t.key, t.left, r2))
    ensures InsertedAsSpecified(t, key, Rebalance(Mk(t.key, t.left, r2)))
  {
    var k, l := t.key, t.left;
    MkWf(k, l, r2);
    RebalanceBalances(k, l, r2);
    RebalanceKeepsOrder(Mk(k, l, r2));
  }

  /** AVLTree: the root and the counter of successful inserts. */
  class AVLTree {
    var root: Tree
    var n: nat

    ghost predicate Valid()
      reads this
    {
      IsAvl(root) && Bst(root) && n == |Keys(root)|
    }

    constructor ()
      ensures Valid() && root == Leaf && n == 0
    {
      root := Leaf;
      n := 0;
    }

    /** insert: on success the key joins the key set and `n` grows by one;
        a key whose coordinates are already stored is refused (ValueError)
        and nothing changes. */
    method Insert(key: Entry) returns (ok: bool)
      requires Valid()
      modifies this
      ensures Valid()
      ensures ok <==> key.point !in old(Points(root))
      ensures ok ==> Keys(root) == old(Keys(root)) + {key} && n == old(n) + 1
      ensures !ok ==> root == old(root) && n == old(n)
    {
      InsertIntoCorrect(root, key);
      var r := InsertInto(root, key);
      if r.None? {
        ok := false;
      } else {
        forall e | e in Keys(root) ensures e.point in Points(root) { }
        root := r.value;
        n := n + 1;
        ok := true;
      }
    }

    /** find: the stored key with the queried coordinates, or None. */
    function Find(q: Vec): (r: Option<Entry>)
      reads this
      requires Valid()
      ensures r.Some? <==> q in Points(root)
      ensures r.Some? ==> r.value in Keys(root) && r.value.point == q
    {
      FindInCorrect(root, q);
      FindIn(root, q)
    }
  }
}
