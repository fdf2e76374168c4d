/** The AVL search tree of Lab07 (MyBST): nodes cache their height, and
    every insert or remove rebalances the nodes on its way back up with
    single and double rotations. The tree is a value here; the class holds
    the root and the size counter the source keeps beside it. */
module AvlTrees {
  import opened Wrappers

  /** size_t wraps modulo 2^64. */
  const SizeTModulus: nat := 0x1_0000_0000_0000_0000

  /** ++ on a size_t counter. */
  function SizeInc(n: nat): (r: nat)
    requires n < SizeTModulus
    ensures r < SizeTModulus && r == (n + 1) % SizeTModulus
  {
    if n + 1 == SizeTModulus then 0 else n + 1
  }

  /** -- on a size_t counter: 0 wraps to the largest value. */
  function SizeDec(n: nat): (r: nat)
    requires n < SizeTModulus
    ensures r < SizeTModulus && r == (n + SizeTModulus - 1) % SizeTModulus
  {
    if n == 0 then SizeTModulus - 1 else n - 1
  }

  /** A node holds its element and its cached height (a leaf has height 1). */
  datatype Tree = Nil | Node(left: Tree, element: int, height: nat, right: Tree)

  function Max(a: nat, b: nat): nat
  {
    if a >= b then a else b
  }

  /** height(t): the cached height, 0 for the empty tree. */
  function H(t: Tree): nat
  {
    if t.Nil? then 0 else t.height
  }

  /** The longest root-to-leaf path, counted in nodes. */
  function TrueHeight(t: Tree): nat
  {
    match t
    case Nil => 0
    case Node(l, _, _, r) => 1 + Max(TrueHeight(l), TrueHeight(r))
  }

  function Elements(t: Tree): set<int>
  {
    match t
    case Nil => {}
    case Node(l, v, _, r) => Elements(l) + {v} + Elements(r)
  }

  function InOrder(t: Tree): seq<int>
  {
    match t
    case Nil => []
    case Node(l, v, _, r) => InOrder(l) + [v] + InOrder(r)
  }

  predicate Ascending(s: seq<int>)
  {
    forall i, j :: 0 <= i < j < |s| ==> s[i] < s[j]
  }

  /** The search-tree order: the in-order walk is strictly ascending. */
  predicate Ordered(t: Tree)
  {
    Ascending(InOrder(t))
  }

  /** Every cached height is 1 + the larger child height, and the child
      heights of every node differ by at most one. */
  predicate Avl(t: Tree)
  {
    match t
    case Nil => true
    case Node(l, _, h, r) =>
      Avl(l) && Avl(r) && h == 1 + Max(H(l), H(r)) && -1 <= H(l) - H(r) <= 1
  }

  predicate Below(t: Tree, v: int)
  {
    forall y :: y in Elements(t) ==> y < v
  }

  predicate Above(t: Tree, v: int)
  {
    forall y :: y in Elements(t) ==> v < y
  }

  // ---------------------------------------------------------------------------
  // The order, node by node

  lemma {:induction false} ElementsInOrder(t: Tree)
    ensures forall y :: y in Elements(t) <==> y in InOrder(t)
  {
    match t
    case Nil =>
    case Node(l, v, _, r) =>
      ElementsInOrder(l);
      ElementsInOrder(r);
  }

  /** A node is ordered exactly when its subtrees are, and its element lies
      between them. */
  lemma OrderedNode(l: Tree, v: int, h: nat, r: Tree)
    ensures Ordered(Node(l, v, h, r)) <==> Ordered(l) && Ordered(r) && Below(l, v) && Above(r, v)
  {
    if Ordered(Node(l, v, h, r)) {
      OrderedNodeParts(l, v, h, r);
    }
    if Ordered(l) && Ordered(r) && Below(l, v) && Above(r, v) {
      OrderedNodeJoin(l, v, h, r);
    }
  }

  lemma OrderedNodeParts(l: Tree, v: int, h: nat, r: Tree)
    requires Ordered(Node(l, v, h, r))
    ensures Ordered(l) && Ordered(r) && Below(l, v) && Above(r, v)
  {
    ElementsInOrder(l);
    ElementsInOrder(r);
    AscendingParts(InOrder(l), v, InOrder(r));
  }

  lemma OrderedNodeJoin(l: Tree, v: int, h: nat, r: Tree)
    requires Ordered(l) && Ordered(r) && Below(l, v) && Above(r, v)
    ensures Ordered(Node(l, v, h, r))
  {
    ElementsInOrder(l);
    ElementsInOrder(r);
    AscendingJoin(InOrder(l), v, InOrder(r));
  }

  /** An ascending sequence a + [v] + b has ascending parts, everything in
      a below v and everything in b above it. */
  lemma AscendingParts(a: seq<int>, v: int, b: seq<int>)
    requires Ascending(a + [v] + b)
    ensures Ascending(a) && Ascending(b)
    ensures forall y :: y in a ==> y < v
    ensures forall y :: y in b ==> v < y
  {
    var s := a + [v] + b;
    assert forall i :: 0 <= i < |a| ==> s[i] == a[i];
    assert forall i :: 0 <= i < |b| ==> s[|a| + 1 + i] == b[i];
    assert s[|a|] == v;
  }

  /** The converse: ascending parts around v make an ascending whole. */
  lemma AscendingJoin(a: seq<int>, v: int, b: seq<int>)
    requires Ascending(a) && Ascending(b)
    requires forall y :: y in a ==> y < v
    requires forall y :: y in b ==> v < y
    ensures Ascending(a + [v] + b)
  {
    var s := a + [v] + b;
    forall i, j | 0 <= i < j < |s|
      ensures s[i] < s[j]
    {
      if j < |a| {
        assert s[i] == a[i] && s[j] == a[j];
      } else if i < |a| {
        assert s[i] == a[i] && a[i] in a;
        if j > |a| {
          assert s[j] == b[j - |a| - 1] && b[j - |a| - 1] in b;
        }
      } else if i == |a| {
        assert s[j] == b[j - |a| - 1] && b[j - |a| - 1] in b;
      } else {
        assert s[i] == b[i - |a| - 1] && s[j] == b[j - |a| - 1];
      }
    }
  }

  // ---------------------------------------------------------------------------
  // findMin, findMax, contains

  /** findMin(t): the leftmost element. */
  function FindMinIn(t: Tree): (m: int)
    requires t.Node?
    ensures m in Elements(t)
  {
    if t.left.Nil? then t.element else FindMinIn(t.left)
  }

  /** findMax(t): the rightmost element. */
  function FindMaxIn(t: Tree): (m: int)
    requires t.Node?
    ensures m in Elements(t)
  {
    if t.right.Nil? then t.element else FindMaxIn(t.right)
  }

  /** In a search tree the leftmost element is the least one. */
  lemma {:induction false} FindMinIsLeast(t: Tree)
    requires t.Node? && Ordered(t)
    ensures forall y :: y in Elements(t) ==> FindMinIn(t) <= y
  {
    OrderedNode(t.left, t.element, t.height, t.right);
    if t.left.Node? {
      FindMinIsLeast(t.left);
    }
  }

  /** In a search tree the rightmost element is the greatest one. */
  lemma {:induction false} FindMaxIsGreatest(t: Tree)
    requires t.Node? && Ordered(t)
    ensures forall y :: y in Elements(t) ==> y <= FindMaxIn(t)
  {
    OrderedNode(t.left, t.element, t.height, t.right);
    if t.right.Node? {
      FindMaxIsGreatest(t.right);
    }
  }

  /** contains(x, t): the search goes left below the element and right
      above it. */
  function ContainsIn(x: int, t: Tree): (found: bool)
    ensures found ==> x in Elements(t)
  {
    match t
    case Nil => false
    case Node(l, v, _, r) =>
      if x < v then ContainsIn(x, l)
      else if x > v then ContainsIn(x, r)
      else true
  }

  /** In a search tree the search finds every element. */
  lemma {:induction false} ContainsInSpec(x: int, t: Tree)
    requires Ordered(t)
    ensures ContainsIn(x, t) <==> x in Elements(t)
  {
    match t
    case Nil =>
    case Node(l, v, h, r) =>
      OrderedNode(l, v, h, r);
      if x < v {
        ContainsInSpec(x, l);
      } else if x > v {
        ContainsInSpec(x, r);
      }
  }

  // ---------------------------------------------------------------------------
  // Rotations and balance

  /** rotateLeft: the right child becomes the root; both moved nodes get
      their height recomputed from their children's cached heights. */
  function RotateLeft(t: Tree): (u: Tree)
    requires t.Node? && t.right.Node?
    ensures InOrder(u) == InOrder(t) && Elements(u) == Elements(t)
  {
    var newRoot := t.right;
    var down := Node(t.left, t.element, 1 + Max(H(t.left), H(newRoot.left)), newRoot.left);
    Node(down, newRoot.element, 1 + Max(H(down), H(newRoot.right)), newRoot.right)
  }

  /** rotateRight: the left child becomes the root. */
  function RotateRight(t: Tree): (u: Tree)
    requires t.Node? && t.left.Node?
    ensures InOrder(u) == InOrder(t) && Elements(u) == Elements(t)
  {
    var newRoot := t.left;
    var down := Node(newRoot.right, t.element, 1 + Max(H(newRoot.right), H(t.right)), t.right);
    Node(newRoot.left, newRoot.element, 1 + Max(H(newRoot.left), H(down)), down)
  }

  /** doubleRotateLeft: rotate the right child right, then the node left. */
  function DoubleRotateLeft(t: Tree): (u: Tree)
    requires t.Node? && t.right.Node? && t.right.left.Node?
    ensures InOrder(u) == InOrder(t) && Elements(u) == Elements(t)
  {
    RotateLeft(Node(t.left, t.element, t.height, RotateRight(t.right)))
  }

  /** doubleRotateRight: rotate the left child left, then the node right. */
  function DoubleRotateRight(t: Tree): (u: Tree)
    requires t.Node? && t.left.Node? && t.left.right.Node?
    ensures InOrder(u) == InOrder(t) && Elements(u) == Elements(t)
  {
    RotateRight(Node(RotateLeft(t.left), t.element, t.height, t.right))
  }

  /** balance(t): a node whose cached child heights differ by more than one
      is rotated (singly when the outer grandchild is at least as high as
      the inner one, doubly otherwise); then its height is recomputed. */
  function Balance(t: Tree): (u: Tree)
    requires t.Node?
    ensures u.Node? && InOrder(u) == InOrder(t) && Elements(u) == Elements(t)
  {
    var factor := H(t.left) - H(t.right);
    var t1 :=
      if factor > 1 then
        (if H(t.left.left) >= H(t.left.right) then RotateRight(t) else DoubleRotateRight(t))
      else if factor < -1 then
        (if H(t.right.right) >= H(t.right.left) then RotateLeft(t) else DoubleRotateLeft(t))
      else t;
    Node(t1.left, t1.element, 1 + Max(H(t1.left), H(t1.right)), t1.right)
  }

  /** The step every insert and remove ends a node with: recompute the
      node's height, then balance it. */
  function Rebalance(t: Tree): (u: Tree)
    requires t.Node?
    ensures u.Node? && InOrder(u) == InOrder(t) && Elements(u) == Elements(t)
  {
    Balance(Node(t.left, t.element, 1 + Max(H(t.left), H(t.right)), t.right))
  }

  /** A single right rotation of a node two higher on the left, whose left
      grandchild is at least as high as the right one, restores the AVL
      shape; the result is one lower unless the grandchildren tie. */
  lemma RotateRightAvl(t: Tree)
    requires t.Node? && t.left.Node? && Avl(t.left) && Avl(t.right)
    requires H(t.left) == H(t.right) + 2 && H(t.left.left) >= H(t.left.right)
    ensures Avl(RotateRight(t))
    ensures H(RotateRight(t)) == H(t.right) + 2 + (if H(t.left.left) == H(t.left.right) then 1 else 0)
  {
  }

  lemma RotateLeftAvl(t: Tree)
    requires t.Node? && t.right.Node? && Avl(t.left) && Avl(t.right)
    requires H(t.right) == H(t.left) + 2 && H(t.right.right) >= H(t.right.left)
    ensures Avl(RotateLeft(t))
    ensures H(RotateLeft(t)) == H(t.left) + 2 + (if H(t.right.right) == H(t.right.left) then 1 else 0)
  {
  }

  /** A double rotation of a node two higher on the left, whose inner
      grandchild is the higher one, restores the AVL shape one lower. */
  lemma DoubleRotateRightAvl(t: Tree)
    requires t.Node? && t.left.Node? && Avl(t.left) && Avl(t.right)
    requires H(t.left) == H(t.right) + 2 && H(t.left.left) < H(t.left.right)
    ensures t.left.right.Node? && Avl(DoubleRotateRight(t)) && H(DoubleRotateRight(t)) == H(t.right) + 2
  {
    var l := t.left;
    var lr := l.right;
    assert lr.Node?;
    assert H(lr.left) <= H(t.right) && H(lr.right) <= H(t.right);
  }

  lemma DoubleRotateLeftAvl(t: Tree)
    requires t.Node? && t.right.Node? && Avl(t.left) && Avl(t.right)
    requires H(t.right) == H(t.left) + 2 && H(t.right.right) < H(t.right.left)
    ensures t.right.left.Node? && Avl(DoubleRotateLeft(t)) && H(DoubleRotateLeft(t)) == H(t.left) + 2
  {
    var r := t.right;
    var rl := r.left;
    assert rl.Node?;
    assert H(rl.left) <= H(t.left) && H(rl.right) <= H(t.left);
  }

  /** balance turns a node whose AVL subtrees differ in height by at most
      two into an AVL tree with the same in-order walk, at most one lower
      than 1 + the higher subtree; a node already in balance only gets its
      height recomputed. */
  lemma BalanceSpec(t: Tree)
    requires t.Node? && Avl(t.left) && Avl(t.right) && -2 <= H(t.left) - H(t.right) <= 2
    ensures Avl(Balance(t))
    ensures 1 + Max(H(t.left), H(t.right)) - 1 <= H(Balance(t)) <= 1 + Max(H(t.left), H(t.right))
    ensures -1 <= H(t.left) - H(t.right) <= 1 ==>
              Balance(t) == Node(t.left, t.element, 1 + Max(H(t.left), H(t.right)), t.right)
  {
    var factor := H(t.left) - H(t.right);
    if factor > 1 {
      if H(t.left.left) >= H(t.left.right) {
        RotateRightAvl(t);
      } else {
        DoubleRotateRightAvl(t);
      }
    } else if factor < -1 {
      if H(t.right.right) >= H(t.right.left) {
        RotateLeftAvl(t);
      } else {
        DoubleRotateLeftAvl(t);
      }
    }
  }

  /** Rebalancing an AVL node changes nothing. */
  lemma RebalanceAvl(t: Tree)
    requires t.Node? && Avl(t)
    ensures Rebalance(t) == t
  {
    BalanceSpec(Node(t.left, t.element, 1 + Max(H(t.left), H(t.right)), t.right));
  }

  /** Ending a node with Rebalance, after one of its AVL subtrees changed
      height by at most one, gives an AVL tree at most one lower than
      1 + the higher subtree (exactly that high when no rotation fired). */
  lemma RebalanceShape(l: Tree, v: int, h: nat, r: Tree)
    requires Avl(l) && Avl(r) && -2 <= H(l) - H(r) <= 2
    ensures Avl(Rebalance(Node(l, v, h, r)))
    ensures Max(H(l), H(r)) <= H(Rebalance(Node(l, v, h, r))) <= 1 + Max(H(l), H(r))
    ensures -1 <= H(l) - H(r) <= 1 ==> H(Rebalance(Node(l, v, h, r))) == 1 + Max(H(l), H(r))
  {
    RebalanceIsBalance(l, v, h, r);
    BalanceSpec(Node(l, v, 1 + Max(H(l), H(r)), r));
  }

  lemma RebalanceIsBalance(l: Tree, v: int, h: nat, r: Tree)
    ensures Rebalance(Node(l, v, h, r)) == Balance(Node(l, v, 1 + Max(H(l), H(r)), r))
  {
  }

  /** Rebalance keeps the in-order walk, hence the search-tree order. */
  lemma RebalanceOrdered(l: Tree, v: int, h: nat, r: Tree)
    requires Ordered(l) && Ordered(r) && Below(l, v) && Above(r, v)
    ensures Ordered(Rebalance(Node(l, v, h, r)))
  {
    OrderedNode(l, v, h, r);
    assert InOrder(Rebalance(Node(l, v, h, r))) == InOrder(Node(l, v, h, r));
  }

  // ---------------------------------------------------------------------------
  // insert and remove

  /** insert(x, t): an element already present returns at once; otherwise
      x becomes a new leaf and every node on the way back is rebalanced. */
  function InsertIn(x: int, t: Tree): (u: Tree)
    ensures Elements(u) == Elements(t) + {x}
  {
    match t
    case Nil => Rebalance(Node(Nil, x, 1, Nil))
    case Node(l, v, h, r) =>
      if x < v then Rebalance(Node(InsertIn(x, l), v, h, r))
      else if x > v then Rebalance(Node(l, v, h, InsertIn(x, r)))
      else t
  }

  /** Inserting into a search tree gives a search tree. */
  lemma {:induction false} InsertInOrdered(x: int, t: Tree)
    requires Ordered(t)
    ensures Ordered(InsertIn(x, t))
  {
    match t
    case Nil =>
      OrderedNode(Nil, x, 1, Nil);
      RebalanceOrdered(Nil, x, 1, Nil);
    case Node(l, v, h, r) =>
      OrderedNode(l, v, h, r);
      if x < v {
        InsertInOrdered(x, l);
        RebalanceOrdered(InsertIn(x, l), v, h, r);
      } else if x > v {
        InsertInOrdered(x, r);
        RebalanceOrdered(l, v, h, InsertIn(x, r));
      }
  }

  /** Inserting into an AVL tree gives an AVL tree at most one higher. */
  lemma {:induction false} InsertInAvl(x: int, t: Tree)
    requires Avl(t)
    ensures Avl(InsertIn(x, t))
    ensures H(t) <= H(InsertIn(x, t)) <= H(t) + 1
  {
    match t
    case Nil =>
      RebalanceShape(Nil, x, 1, Nil);
    case Node(l, v, h, r) =>
      if x < v {
        InsertInAvl(x, l);
        RebalanceShape(InsertIn(x, l), v, h, r);
      } else if x > v {
        InsertInAvl(x, r);
        RebalanceShape(l, v, h, InsertIn(x, r));
      }
  }

  /** Inserting an element already in an AVL search tree changes nothing. */
  lemma {:induction false} InsertInPresent(x: int, t: Tree)
    requires Ordered(t) && Avl(t) && x in Elements(t)
    ensures InsertIn(x, t) == t
  {
    match t
    case Node(l, v, h, r) =>
      OrderedNode(l, v, h, r);
      if x < v {
        assert x !in Elements(r);
        InsertInPresent(x, l);
        RebalanceAvl(t);
      } else if x > v {
        assert x !in Elements(l);
        InsertInPresent(x, r);
        RebalanceAvl(t);
      }
  }

  /** remove(x, t): a leaf is dropped, a node with one child is replaced by
      that child, and a node with two children takes the least element of
      its right subtree, which is then removed from there; every node left
      on the way back is rebalanced. */
  function RemoveIn(x: int, t: Tree): (u: Tree)
    ensures Elements(u) <= Elements(t)
    decreases t
  {
    match t
    case Nil => Nil
    case Node(l, v, h, r) =>
      if x < v then Rebalance(Node(RemoveIn(x, l), v, h, r))
      else if x > v then Rebalance(Node(l, v, h, RemoveIn(x, r)))
      else if l.Nil? && r.Nil? then Nil
      else if l.Nil? then Rebalance(r)
      else if r.Nil? then Rebalance(l)
      else
        var m := FindMinIn(r);
        Rebalance(Node(l, m, h, RemoveIn(m, r)))
  }

  /** Removing from a search tree takes out exactly x and gives a search
      tree. */
  lemma {:induction false} RemoveInOrdered(x: int, t: Tree)
    requires Ordered(t)
    ensures Ordered(RemoveIn(x, t))
    ensures Elements(RemoveIn(x, t)) == Elements(t) - {x}
    decreases t, 2
  {
    match t
    case Nil =>
    case Node(l, v, h, r) =>
      OrderedNode(l, v, h, r);
      if x < v {
        RemoveInOrdered(x, l);
        RebalanceOrdered(RemoveIn(x, l), v, h, r);
        assert x !in Elements(r);
      } else if x > v {
        RemoveInOrdered(x, r);
        RebalanceOrdered(l, v, h, RemoveIn(x, r));
        assert x !in Elements(l);
      } else {
        RemoveRootOrdered(l, v, h, r);
      }
  }

  /** RemoveInOrdered for the element at the root: a leaf goes, a single
      child takes its place, and of two children the least element on the
      right takes its place. */
  lemma {:induction false} RemoveRootOrdered(l: Tree, v: int, h: nat, r: Tree)
    requires Ordered(Node(l, v, h, r))
    ensures Ordered(RemoveIn(v, Node(l, v, h, r)))
    ensures Elements(RemoveIn(v, Node(l, v, h, r))) == Elements(Node(l, v, h, r)) - {v}
    decreases Node(l, v, h, r), 1
  {
    OrderedNode(l, v, h, r);
    if l.Nil? && r.Nil? {
    } else if l.Nil? {
      OrderedNode(r.left, r.element, r.height, r.right);
      RebalanceOrdered(r.left, r.element, r.height, r.right);
      assert v !in Elements(r);
    } else if r.Nil? {
      OrderedNode(l.left, l.element, l.height, l.right);
      RebalanceOrdered(l.left, l.element, l.height, l.right);
      assert v !in Elements(l);
    } else {
      RemoveSuccessorOrdered(l, v, h, r);
    }
  }

  /** RemoveRootOrdered with two children: the least element on the right
      moves up and is removed from the right. */
  lemma {:induction false} RemoveSuccessorOrdered(l: Tree, v: int, h: nat, r: Tree)
    requires Ordered(Node(l, v, h, r)) && l.Node? && r.Node?
    ensures Ordered(RemoveIn(v, Node(l, v, h, r)))
    ensures Elements(RemoveIn(v, Node(l, v, h, r))) == Elements(Node(l, v, h, r)) - {v}
    decreases Node(l, v, h, r), 0
  {
    OrderedNode(l, v, h, r);
    var m := FindMinIn(r);
    FindMinIsLeast(r);
    RemoveInOrdered(m, r);
    assert Below(l, m);
    RebalanceOrdered(l, m, h, RemoveIn(m, r));
  }

  /** Removing from an AVL tree gives an AVL tree at most one lower. */
  lemma {:induction false} RemoveInAvl(x: int, t: Tree)
    requires Avl(t)
    ensures Avl(RemoveIn(x, t))
    ensures H(t) - 1 <= H(RemoveIn(x, t)) <= H(t)
    decreases t
  {
    match t
    case Nil =>
    case Node(l, v, h, r) =>
      if x < v {
        RemoveInAvl(x, l);
        RebalanceShape(RemoveIn(x, l), v, h, r);
      } else if x > v {
        RemoveInAvl(x, r);
        RebalanceShape(l, v, h, RemoveIn(x, r));
      } else if l.Nil? && r.Nil? {
      } else if l.Nil? {
        RebalanceAvl(r);
      } else if r.Nil? {
        RebalanceAvl(l);
      } else {
        var m := FindMinIn(r);
        RemoveInAvl(m, r);
        RebalanceShape(l, m, h, RemoveIn(m, r));
      }
  }

  /** Removing an element absent from an AVL search tree changes nothing. */
  lemma {:induction false} RemoveInAbsent(x: int, t: Tree)
    requires Ordered(t) && Avl(t) && x !in Elements(t)
    ensures RemoveIn(x, t) == t
  {
    match t
    case Nil =>
    case Node(l, v, h, r) =>
      OrderedNode(l, v, h, r);
      if x < v {
        RemoveInAbsent(x, l);
        RebalanceAvl(t);
      } else if x > v {
        RemoveInAbsent(x, r);
        RebalanceAvl(t);
      }
  }

  /** The cached height of an AVL tree is its depth. */
  lemma {:induction false} CachedHeight(t: Tree)
    requires Avl(t)
    ensures H(t) == TrueHeight(t)
  {
    match t
    case Nil =>
    case Node(l, _, _, r) =>
      CachedHeight(l);
      CachedHeight(r);
  }

  // ---------------------------------------------------------------------------
  // lowestCommonAncestor

  /** The elements the search for x visits, from the root down. */
  function SearchPath(t: Tree, x: int): seq<int>
  {
    match t
    case Nil => []
    case Node(l, v, _, r) =>
      [v] + (if x < v then SearchPath(l, x) else if x > v then SearchPath(r, x) else [])
  }

  function CommonPrefix(a: seq<int>, b: seq<int>): (p: seq<int>)
    ensures |p| <= |a| && p == a[..|p|] && |p| <= |b| && p == b[..|p|]
  {
    if a == [] || b == [] || a[0] != b[0] then [] else [a[0]] + CommonPrefix(a[1..], b[1..])
  }

  lemma PathHead(t: Tree, x: int)
    ensures SearchPath(t, x) != [] ==> SearchPath(t, x)[0] in Elements(t)
  {
  }

  /** Where the walk of lowestCommonAncestor stops: the first node whose
      element is not above both x and y nor below both; None when it walks
      off the tree. */
  function SplitNode(t: Tree, x: int, y: int): Option<int>
  {
    match t
    case Nil => None
    case Node(l, v, _, r) =>
      if x < v && y < v then SplitNode(l, x, y)
      else if x > v && y > v then SplitNode(r, x, y)
      else Some(v)
  }

  /** The node the walk stops at is an element between x and y. */
  lemma {:induction false} SplitNodeBetween(t: Tree, x: int, y: int)
    requires SplitNode(t, x, y).Some?
    ensures SplitNode(t, x, y).value in Elements(t)
    ensures (if x <= y then x else y) <= SplitNode(t, x, y).value <= (if x <= y then y else x)
  {
    match t
    case Node(l, v, h, r) =>
      if x < v && y < v {
        SplitNodeBetween(l, x, y);
      } else if x > v && y > v {
        SplitNodeBetween(r, x, y);
      }
  }

  /** In a search tree the node the walk stops at is the last node the
      searches for x and for y share. */
  lemma {:induction false} SplitNodeIsLowest(t: Tree, x: int, y: int)
    requires Ordered(t) && SplitNode(t, x, y).Some?
    ensures CommonPrefix(SearchPath(t, x), SearchPath(t, y)) != []
    ensures CommonPrefix(SearchPath(t, x), SearchPath(t, y))[|CommonPrefix(SearchPath(t, x), SearchPath(t, y))| - 1]
            == SplitNode(t, x, y).value
  {
    match t
    case Node(l, v, h, r) =>
      OrderedNode(l, v, h, r);
      var px, py := SearchPath(t, x), SearchPath(t, y);
      if x < v && y < v {
        SplitNodeIsLowest(l, x, y);
        assert px[1..] == SearchPath(l, x) && py[1..] == SearchPath(l, y);
      } else if x > v && y > v {
        SplitNodeIsLowest(r, x, y);
        assert px[1..] == SearchPath(r, x) && py[1..] == SearchPath(r, y);
      } else {
        // below the split node the two searches part: one goes left, the
        // other right, or one of them ends here
        PathHead(l, x);
        PathHead(r, x);
        PathHead(l, y);
        PathHead(r, y);
        assert CommonPrefix(px[1..], py[1..]) == [];
      }
  }

  /** When both x and y are in the tree, the walk finds a split node. */
  lemma {:induction false} SplitNodeFound(t: Tree, x: int, y: int)
    requires Ordered(t) && x in Elements(t) && y in Elements(t)
    ensures SplitNode(t, x, y).Some?
  {
    match t
    case Node(l, v, h, r) =>
      OrderedNode(l, v, h, r);
      if x < v && y < v {
        SplitNodeFound(l, x, y);
      } else if x > v && y > v {
        SplitNodeFound(r, x, y);
      }
  }

  /** With neither key in the tree the walk still reports the root of a
      one-node tree as their common ancestor. */
  lemma LcaOfAbsentKeys()
    ensures 3 !in Elements(Node(Nil, 5, 1, Nil)) && 7 !in Elements(Node(Nil, 5, 1, Nil))
    ensures SplitNode(Node(Nil, 5, 1, Nil), 3, 7) == Some(5)
  {
  }

  // ---------------------------------------------------------------------------
  // The tree object

  /** What insert does to a valid tree. */
  lemma Inserted(x: int, t: Tree)
    requires Ordered(t) && Avl(t)
    ensures Ordered(InsertIn(x, t)) && Avl(InsertIn(x, t))
    ensures x in Elements(t) ==> InsertIn(x, t) == t
  {
    InsertInOrdered(x, t);
    InsertInAvl(x, t);
    if x in Elements(t) {
      InsertInPresent(x, t);
    }
  }

  /** What remove does to a valid tree. */
  lemma Removed(x: int, t: Tree)
    requires Ordered(t) && Avl(t)
    ensures Ordered(RemoveIn(x, t)) && Avl(RemoveIn(x, t))
    ensures Elements(RemoveIn(x, t)) == Elements(t) - {x}
    ensures x !in Elements(t) ==> RemoveIn(x, t) == t
  {
    RemoveInOrdered(x, t);
    RemoveInAvl(x, t);
    if x !in Elements(t) {
      RemoveInAbsent(x, t);
    }
  }

  /** A tree holding 5 alone: insert(5) leaves it as it is while the
      counter goes from 1 to 2, and remove(7) leaves it as it is while the
      counter goes from 1 to 0. */
  lemma SizeMiscount()
    ensures var t := Node(Nil, 5, 1, Nil);
            |Elements(t)| == 1 && InsertIn(5, t) == t && SizeInc(|Elements(t)|) == 2 &&
            RemoveIn(7, t) == t && SizeDec(|Elements(t)|) == 0
  {
    var t := Node(Nil, 5, 1, Nil);
    assert Elements(t) == {5};
    InsertInPresent(5, t);
    RemoveInAbsent(7, t);
  }

  class MyBST {
    var root: Tree
    /** Bumped by every insert and dropped by every remove, whether or not
        the tree changed. */
    var theSize: nat

    ghost predicate Valid()
      reads this
    {
      Ordered(root) && Avl(root) && theSize < SizeTModulus
    }

    constructor ()
      ensures Valid() && root == Nil && theSize == 0
    {
      root := Nil;
      theSize := 0;
    }

    /** findMin(): the least element, or underflow on an empty tree. */
    function FindMin(): (r: Result<int>)
      reads this
      requires Valid()
      ensures r.Err? <==> root == Nil
      ensures r.Ok? ==> r.value in Elements(root) && forall y :: y in Elements(root) ==> r.value <= y
    {
      if root == Nil then Err(Underflow)
      else
        FindMinIsLeast(root);
        Ok(FindMinIn(root))
    }

    /** findMax(): the greatest element, or underflow on an empty tree. */
    function FindMax(): (r: Result<int>)
      reads this
      requires Valid()
      ensures r.Err? <==> root == Nil
      ensures r.Ok? ==> r.value in Elements(root) && forall y :: y in Elements(root) ==> y <= r.value
    {
      if root == Nil then Err(Underflow)
      else
        FindMaxIsGreatest(root);
        Ok(FindMaxIn(root))
    }

    function Contains(x: int): (r: bool)
      reads this
      requires Valid()
      ensures r <==> x in Elements(root)
    {
      ContainsInSpec(x, root);
      ContainsIn(x, root)
    }

    function Size(): (r: nat)
      reads this
      requires Valid()
      ensures r < SizeTModulus
      ensures Counted() ==> r == |Elements(root)|
    {
      theSize
    }

    /** depth(): the longest root-to-leaf path, read from the root's cached
        height. */
    function Depth(): (r: nat)
      reads this
      requires Valid()
      ensures r == TrueHeight(root)
      ensures r == 0 <==> root == Nil
    {
      CachedHeight(root);
      H(root)
    }

    function Empty(): (r: bool)
      reads this
      requires Valid()
      ensures r <==> Elements(root) == {}
    {
      assert root.Node? ==> root.element in Elements(root);
      root == Nil
    }

    /** insert(x): the tree gains x (it is unchanged if x was there) and
        the counter goes up by one either way. */
    method Insert(x: int)
      requires Valid()
      modifies this
      ensures Valid() && root == InsertIn(x, old(root))
      ensures Elements(root) == old(Elements(root)) + {x}
      ensures x in old(Elements(root)) ==> root == old(root)
      ensures theSize == SizeInc(old(theSize))
      ensures old(Counted()) ==> (Counted() <==> x !in old(Elements(root)) && |Elements(root)| < SizeTModulus)
    {
      Inserted(x, root);
      root := InsertIn(x, root);
      theSize := SizeInc(theSize);
    }

    /** remove(x): the tree loses x (it is unchanged if x was absent) and
        the counter goes down by one either way, wrapping below zero. */
    method Remove(x: int)
      requires Valid()
      modifies this
      ensures Valid() && root == RemoveIn(x, old(root))
      ensures Elements(root) == old(Elements(root)) - {x}
      ensures x !in old(Elements(root)) ==> root == old(root)
      ensures theSize == SizeDec(old(theSize))
      ensures old(Counted()) ==> (Counted() <==> x in old(Elements(root)))
    {
      Removed(x, root);
      root := RemoveIn(x, root);
      theSize := SizeDec(theSize);
    }

    /** size() counts the elements of the tree: the promise the counter is
        meant to keep. */
    ghost predicate Counted()
      reads this
    {
      theSize == |Elements(root)|
    }

    /** insert(x), counting x only when the tree did not hold it. */
    method InsertCounted(x: int)
      requires Valid()
      modifies this
      ensures Valid() && root == InsertIn(x, old(root))
      ensures Elements(root) == old(Elements(root)) + {x}
      ensures theSize == if x in old(Elements(root)) then old(theSize) else SizeInc(old(theSize))
      ensures old(Counted()) && |Elements(root)| < SizeTModulus ==> Counted()
    {
      var present := Contains(x);
      Inserted(x, root);
      root := InsertIn(x, root);
      if !present {
        theSize := SizeInc(theSize);
      }
    }

    /** remove(x), uncounting x only when the tree held it. */
    method RemoveCounted(x: int)
      requires Valid()
      modifies this
      ensures Valid() && root == RemoveIn(x, old(root))
      ensures Elements(root) == old(Elements(root)) - {x}
      ensures theSize == if x in old(Elements(root)) then SizeDec(old(theSize)) else old(theSize)
      ensures old(Counted()) ==> Counted()
    {
      var present := Contains(x);
      Removed(x, root);
      root := RemoveIn(x, root);
      if present {
        theSize := SizeDec(theSize);
      }
    }

    /** lowestCommonAncestor(x, y): walks down from the root while x and y
        lie on the same side of the current element, and reports the first
        element where they do not. */
    method LowestCommonAncestor(x: int, y: int) returns (found: bool, lca: int)
      requires Valid()
      ensures found <==> SplitNode(root, x, y).Some?
      ensures found ==> lca == SplitNode(root, x, y).value
    {
      var current := root;
      while current != Nil
        invariant SplitNode(current, x, y) == SplitNode(root, x, y)
        decreases current
      {
        if x < current.element && y < current.element {
          current := current.left;
        } else if x > current.element && y > current.element {
          current := current.right;
        } else {
          return true, current.element;
        }
      }
      return false, 0;
    }

    /** lowestCommonAncestor as its documentation describes it: true exactly
        when both keys are in the tree. */
    method LowestCommonAncestorChecked(x: int, y: int) returns (found: bool, lca: int)
      requires Valid()
      ensures found <==> x in Elements(root) && y in Elements(root)
      ensures found ==> SplitNode(root, x, y).Some? && lca == SplitNode(root, x, y).value
    {
      if !Contains(x) || !Contains(y) {
        return false, 0;
      }
      SplitNodeFound(root, x, y);
      found, lca := LowestCommonAncestor(x, y);
    }
  }
}
