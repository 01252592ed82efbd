/** The AVL tree of common/avl_tree.c on the heap: nodes whose `left`, `right`, `balance` and
    `data` fields are rewritten in place.  Each routine is proved to leave behind exactly the
    tree that the function of the same name in module AvlModel computes.

    A parameter of type `AVLTreeNode **` becomes a link passed in and a link handed back, which
    the caller stores where the original would have written through the pointer. */
module AvlTree {
  import opened Common
  import M = AvlModel

  class AvlNode<T> {
    var data: T
    var left: AvlNode?<T>
    var right: AvlNode?<T>
    var balance: int

    constructor (x: T)
      ensures data == x && left == null && right == null && balance == 0
    {
      data, left, right, balance := x, null, null, 0;
    }
  }

  /** Which nodes hang where below a link. */
  datatype Shape<T> = Nil | Cons(left: Shape<T>, node: AvlNode<T>, right: Shape<T>)

  ghost function Nodes<T>(s: Shape<T>): set<AvlNode<T>> {
    match s
    case Nil => {}
    case Cons(l, n, r) => Nodes(l) + {n} + Nodes(r)
  }

  /** Following the links from `p` yields exactly the shape `s`, and no node hangs twice. */
  ghost predicate Holds<T>(p: AvlNode?<T>, s: Shape<T>)
    reads Nodes(s)`left, Nodes(s)`right
    decreases s
  {
    match s
    case Nil => p == null
    case Cons(l, n, r) =>
      && p == n && Holds(n.left, l) && Holds(n.right, r)
      && n !in Nodes(l) && n !in Nodes(r) && Nodes(l) !! Nodes(r)
  }

  /** The tree denoted by a shape in the current heap. */
  ghost function Tree<T>(s: Shape<T>): M.Tree<T>
    reads Nodes(s)`data, Nodes(s)`balance
    decreases s
  {
    match s
    case Nil => M.Leaf
    case Cons(l, n, r) => M.Node(Tree(l), n.data, n.balance, Tree(r))
  }

  ghost function Optional<T>(n: AvlNode?<T>): set<AvlNode<T>> { if n == null then {} else {n} }

  ghost function LeftRotated<T>(s: Shape<T>): (u: Shape<T>)
    requires s.Cons? && s.right.Cons?
    ensures Nodes(u) == Nodes(s)
  {
    s.right.(left := s.(right := s.right.left))
  }

  method RotateLeft<T>(p: AvlNode<T>, ghost s: Shape<T>) returns (q: AvlNode<T>)
    requires Holds(p, s) && s.right.Cons?
    modifies Nodes(s)`left, Nodes(s)`right
    ensures Holds(q, LeftRotated(s))
  {
    q := p.right;
    p.right := q.left;
    q.left := p;
  }

  ghost function RightRotated<T>(s: Shape<T>): (u: Shape<T>)
    requires s.Cons? && s.left.Cons?
    ensures Nodes(u) == Nodes(s)
  {
    s.left.(right := s.(left := s.left.right))
  }

  method RotateRight<T>(p: AvlNode<T>, ghost s: Shape<T>) returns (q: AvlNode<T>)
    requires Holds(p, s) && s.left.Cons?
    modifies Nodes(s)`left, Nodes(s)`right
    ensures Holds(q, RightRotated(s))
  {
    q := p.left;
    p.left := q.right;
    q.right := p;
  }

  /** avlRotateLeft on the left link of `p`, then avlRotateRight on `p` itself. */
  method RotateLeftThenRight<T>(p: AvlNode<T>, ghost s: Shape<T>) returns (q: AvlNode<T>)
    requires Holds(p, s) && s.left.Cons? && s.left.right.Cons?
    modifies Nodes(s)`left, Nodes(s)`right
    ensures Holds(q, RightRotated(s.(left := LeftRotated(s.left))))
  {
    assert allocated(Nodes(s.right));
    var c := RotateLeft(p.left, s.left);
    assert Holds(p.right, s.right);
    p.left := c;
    q := RotateRight(p, s.(left := LeftRotated(s.left)));
  }

  /** The inner switch of the left rebalancers. */
  method RelabelLeft<T>(p: AvlNode<T>, ghost s: Shape<T>)
    requires Holds(p, s) && Tree(s).left.Node? && Tree(s).left.right.Node?
    modifies Nodes(s)`balance
    ensures Tree(s).left.Node? && Tree(s).left.right.Node?
    ensures M.RotateRight(Tree(s).(left := M.RotateLeft(Tree(s).left))) == M.DoubleRight(old(Tree(s)))
  {
    var child := p.left;
    assert Holds(child, s.left) && Tree(s.left) == Tree(s).left;
    var grandchild := child.right;
    assert Holds(grandchild, s.left.right) && Tree(s.left.right) == Tree(s).left.right;
    var b := grandchild.balance;
    grandchild.balance := 0;
    assert Tree(s.left.right) == old(Tree(s.left.right)).(balance := 0);
    child.balance := if b == -1 || b == 0 then 0 else if b == 1 then -1 else child.balance;
    p.balance := if b == -1 then 1 else if b == 0 || b == 1 then 0 else p.balance;
    assert Tree(s.left.right) == old(Tree(s.left.right)).(balance := 0);
    assert Tree(s.left) == old(Tree(s.left)).(right := Tree(s.left.right), balance := child.balance);
    assert Tree(s) == old(Tree(s)).(left := Tree(s.left), balance := p.balance);
  }

  /** avlRotateRight on the right link of `p`, then avlRotateLeft on `p` itself. */
  method RotateRightThenLeft<T>(p: AvlNode<T>, ghost s: Shape<T>) returns (q: AvlNode<T>)
    requires Holds(p, s) && s.right.Cons? && s.right.left.Cons?
    modifies Nodes(s)`left, Nodes(s)`right
    ensures Holds(q, LeftRotated(s.(right := RightRotated(s.right))))
  {
    assert allocated(Nodes(s.left));
    var c := RotateRight(p.right, s.right);
    assert Holds(p.left, s.left);
    p.right := c;
    q := RotateLeft(p, s.(right := RightRotated(s.right)));
  }

  /** The inner switch of the right rebalancers. */
  method RelabelRight<T>(p: AvlNode<T>, ghost s: Shape<T>)
    requires Holds(p, s) && Tree(s).right.Node? && Tree(s).right.left.Node?
    modifies Nodes(s)`balance
    ensures Tree(s).right.Node? && Tree(s).right.left.Node?
    ensures M.RotateLeft(Tree(s).(right := M.RotateRight(Tree(s).right))) == M.DoubleLeft(old(Tree(s)))
  {
    var child := p.right;
    assert Holds(child, s.right) && Tree(s.right) == Tree(s).right;
    var grandchild := child.left;
    assert Holds(grandchild, s.right.left) && Tree(s.right.left) == Tree(s).right.left;
    var b := grandchild.balance;
    grandchild.balance := 0;
    assert Tree(s.right.left) == old(Tree(s.right.left)).(balance := 0);
    child.balance := if b == 1 || b == 0 then 0 else if b == -1 then 1 else child.balance;
    p.balance := if b == 1 then -1 else if b == 0 || b == -1 then 0 else p.balance;
    assert Tree(s.right.left) == old(Tree(s.right.left)).(balance := 0);
    assert Tree(s.right) == old(Tree(s.right)).(left := Tree(s.right.left), balance := child.balance);
    assert Tree(s) == old(Tree(s)).(right := Tree(s.right), balance := p.balance);
  }

  lemma TreeRightRotated<T>(s: Shape<T>)
    requires s.Cons? && s.left.Cons?
    ensures Tree(s).left.Node? && Tree(RightRotated(s)) == M.RotateRight(Tree(s))
  {
    assert Tree(s).left == Tree(s.left);
  }

  lemma TreeLeftRotated<T>(s: Shape<T>)
    requires s.Cons? && s.right.Cons?
    ensures Tree(s).right.Node? && Tree(LeftRotated(s)) == M.RotateLeft(Tree(s))
  {
    assert Tree(s).right == Tree(s.right);
  }

  method DoubleRight<T>(p: AvlNode<T>, ghost s: Shape<T>) returns (q: AvlNode<T>, ghost u: Shape<T>)
    requires Holds(p, s) && Tree(s).left.Node? && Tree(s).left.right.Node?
    modifies Nodes(s)`left, Nodes(s)`right, Nodes(s)`balance
    ensures Holds(q, u) && Nodes(u) == Nodes(s)
    ensures Tree(u) == M.DoubleRight(old(Tree(s)))
  {
    assert allocated(Nodes(s));
    RelabelLeft(p, s);
    assert Tree(s.left) == Tree(s).left && Tree(s.left.right) == Tree(s).left.right;
    TreeLeftRotated(s.left);
    u := s.(left := LeftRotated(s.left));
    TreeRightRotated(u);
    q := RotateLeftThenRight(p, s);
    u := RightRotated(u);
  }

  method LeftBalanceWhenInsert<T>(p: AvlNode<T>, ghost s: Shape<T>, taller: bool)
    returns (q: AvlNode<T>, taller': bool, ghost u: Shape<T>)
    requires Holds(p, s) && M.LeftShape(Tree(s))
    modifies Nodes(s)`left, Nodes(s)`right, Nodes(s)`balance
    ensures Holds(q, u) && Nodes(u) == Nodes(s)
    ensures (Tree(u), taller') == M.LeftBalanceWhenInsert(old(Tree(s)), taller)
  {
    assert allocated(Nodes(s));
    q, taller', u := p, taller, s;
    var leftsub := p.left;
    assert Holds(leftsub, s.left) && Tree(s.left) == Tree(s).left;
    if leftsub.balance == -1 {
      p.balance, leftsub.balance := 0, 0;
      TreeRightRotated(s);
      q := RotateRight(p, s);
      u := RightRotated(s);
      taller' := false;
    } else if leftsub.balance == 1 {
      q, u := DoubleRight(p, s);
      taller' := false;
    }
  }

  method LeftBalanceWhenDelete<T>(p: AvlNode<T>, ghost s: Shape<T>, shorter: bool)
    returns (q: AvlNode<T>, shorter': bool, ghost u: Shape<T>)
    requires Holds(p, s) && M.LeftShape(Tree(s))
    modifies Nodes(s)`left, Nodes(s)`right, Nodes(s)`balance
    ensures Holds(q, u) && Nodes(u) == Nodes(s)
    ensures (Tree(u), shorter') == M.LeftBalanceWhenDelete(old(Tree(s)), shorter)
  {
    assert allocated(Nodes(s));
    q, shorter', u := p, shorter, s;
    var leftsub := p.left;
    assert Holds(leftsub, s.left) && Tree(s.left) == Tree(s).left;
    if leftsub.balance == -1 {
      p.balance, leftsub.balance := 0, 0;
      TreeRightRotated(s);
      q := RotateRight(p, s);
      u := RightRotated(s);
    } else if leftsub.balance == 0 {
      leftsub.balance := 1;
      TreeRightRotated(s);
      q := RotateRight(p, s);
      u := RightRotated(s);
      shorter' := false;
    } else if leftsub.balance == 1 {
      q, u := DoubleRight(p, s);
    }
  }

  method DoubleLeft<T>(p: AvlNode<T>, ghost s: Shape<T>) returns (q: AvlNode<T>, ghost u: Shape<T>)
    requires Holds(p, s) && Tree(s).right.Node? && Tree(s).right.left.Node?
    modifies Nodes(s)`left, Nodes(s)`right, Nodes(s)`balance
    ensures Holds(q, u) && Nodes(u) == Nodes(s)
    ensures Tree(u) == M.DoubleLeft(old(Tree(s)))
  {
    assert allocated(Nodes(s));
    RelabelRight(p, s);
    assert Tree(s.right) == Tree(s).right && Tree(s.right.left) == Tree(s).right.left;
    TreeRightRotated(s.right);
    u := s.(right := RightRotated(s.right));
    TreeLeftRotated(u);
    q := RotateRightThenLeft(p, s);
    u := LeftRotated(u);
  }

  method RightBalanceWhenInsert<T>(p: AvlNode<T>, ghost s: Shape<T>, taller: bool)
    returns (q: AvlNode<T>, taller': bool, ghost u: Shape<T>)
    requires Holds(p, s) && M.RightShape(Tree(s))
    modifies Nodes(s)`left, Nodes(s)`right, Nodes(s)`balance
    ensures Holds(q, u) && Nodes(u) == Nodes(s)
    ensures (Tree(u), taller') == M.RightBalanceWhenInsert(old(Tree(s)), taller)
  {
    assert allocated(Nodes(s));
    q, taller', u := p, taller, s;
    var rightsub := p.right;
    assert Holds(rightsub, s.right) && Tree(s.right) == Tree(s).right;
    if rightsub.balance == 1 {
      p.balance, rightsub.balance := 0, 0;
      TreeLeftRotated(s);
      q := RotateLeft(p, s);
      u := LeftRotated(s);
      taller' := false;
    } else if rightsub.balance == -1 {
      q, u := DoubleLeft(p, s);
      taller' := false;
    }
  }

  method RightBalanceWhenDelete<T>(p: AvlNode<T>, ghost s: Shape<T>, shorter: bool)
    returns (q: AvlNode<T>, shorter': bool, ghost u: Shape<T>)
    requires Holds(p, s) && M.RightShape(Tree(s))
    modifies Nodes(s)`left, Nodes(s)`right, Nodes(s)`balance
    ensures Holds(q, u) && Nodes(u) == Nodes(s)
    ensures (Tree(u), shorter') == M.RightBalanceWhenDelete(old(Tree(s)), shorter)
  {
    assert allocated(Nodes(s));
    q, shorter', u := p, shorter, s;
    var rightsub := p.right;
    assert Holds(rightsub, s.right) && Tree(s.right) == Tree(s).right;
    if rightsub.balance == 1 {
      p.balance, rightsub.balance := 0, 0;
      TreeLeftRotated(s);
      q := RotateLeft(p, s);
      u := LeftRotated(s);
    } else if rightsub.balance == 0 {
      rightsub.balance := -1;
      TreeLeftRotated(s);
      q := RotateLeft(p, s);
      u := LeftRotated(s);
      shorter' := false;
    } else if rightsub.balance == -1 {
      q, u := DoubleLeft(p, s);
    }
  }

  method FixAfterLeftInsert<T>(p: AvlNode<T>, ghost s: Shape<T>, taller: bool)
    returns (q: AvlNode<T>, taller': bool, ghost u: Shape<T>)
    requires Holds(p, s) && M.Stale(Tree(s), M.Int(taller), 0)
    requires taller && Tree(s).balance == -1 ==> Tree(s).left.Node? && Tree(s).left.balance != 0
    modifies Nodes(s)`left, Nodes(s)`right, Nodes(s)`balance
    ensures Holds(q, u) && Nodes(u) == Nodes(s)
    ensures (Tree(u), taller') == M.FixAfterLeftInsert(old(Tree(s)), taller)
  {
    q, taller', u := p, taller, s;
    if taller {
      if p.balance == -1 {
        M.LeftRebalanced(Tree(s), taller);
        q, taller', u := LeftBalanceWhenInsert(p, s, taller);
      } else if p.balance == 0 {
        p.balance := -1;
      } else {
        p.balance, taller' := 0, false;
      }
    }
  }

  method FixAfterLeftDelete<T>(p: AvlNode<T>, ghost s: Shape<T>, shorter: bool)
    returns (q: AvlNode<T>, shorter': bool, ghost u: Shape<T>)
    requires Holds(p, s) && M.Stale(Tree(s), -M.Int(shorter), 0)
    modifies Nodes(s)`left, Nodes(s)`right, Nodes(s)`balance
    ensures Holds(q, u) && Nodes(u) == Nodes(s)
    ensures (Tree(u), shorter') == M.FixAfterLeftDelete(old(Tree(s)), shorter)
  {
    q, shorter', u := p, shorter, s;
    if shorter {
      if p.balance == -1 {
        p.balance := 0;
      } else if p.balance == 0 {
        p.balance, shorter' := 1, false;
      } else {
        M.RightRebalanced(Tree(s), shorter);
        q, shorter', u := RightBalanceWhenDelete(p, s, shorter);
      }
    }
  }

  method FixAfterRightInsert<T>(p: AvlNode<T>, ghost s: Shape<T>, taller: bool)
    returns (q: AvlNode<T>, taller': bool, ghost u: Shape<T>)
    requires Holds(p, s) && M.Stale(Tree(s), 0, M.Int(taller))
    requires taller && Tree(s).balance == 1 ==> Tree(s).right.Node? && Tree(s).right.balance != 0
    modifies Nodes(s)`left, Nodes(s)`right, Nodes(s)`balance
    ensures Holds(q, u) && Nodes(u) == Nodes(s)
    ensures (Tree(u), taller') == M.FixAfterRightInsert(old(Tree(s)), taller)
  {
    q, taller', u := p, taller, s;
    if taller {
      if p.balance == 1 {
        M.RightRebalanced(Tree(s), taller);
        q, taller', u := RightBalanceWhenInsert(p, s, taller);
      } else if p.balance == 0 {
        p.balance := 1;
      } else {
        p.balance, taller' := 0, false;
      }
    }
  }

  method FixAfterRightDelete<T>(p: AvlNode<T>, ghost s: Shape<T>, shorter: bool)
    returns (q: AvlNode<T>, shorter': bool, ghost u: Shape<T>)
    requires Holds(p, s) && M.Stale(Tree(s), 0, -M.Int(shorter))
    modifies Nodes(s)`left, Nodes(s)`right, Nodes(s)`balance
    ensures Holds(q, u) && Nodes(u) == Nodes(s)
    ensures (Tree(u), shorter') == M.FixAfterRightDelete(old(Tree(s)), shorter)
  {
    q, shorter', u := p, shorter, s;
    if shorter {
      if p.balance == 1 {
        p.balance := 0;
      } else if p.balance == 0 {
        p.balance, shorter' := -1, false;
      } else {
        M.LeftRebalanced(Tree(s), shorter);
        q, shorter', u := LeftBalanceWhenDelete(p, s, shorter);
      }
    }
  }

  /** avl_tree_insert_loop and, with `overwrite`, avl_tree_replace_loop. */
  method InsertLoop<T>(cmp: (T, T) -> int, p: AvlNode?<T>, ghost s: Shape<T>, x: T, ok: bool, overwrite: bool)
    returns (q: AvlNode?<T>, taller: bool, code: int, ghost u: Shape<T>, ghost created: AvlNode?<T>)
    requires Holds(p, s) && M.Balanced(Tree(s))
    modifies Nodes(s)
    ensures Holds(q, u) && fresh(Nodes(u) - Nodes(s))
    ensures Nodes(u) == Nodes(s) + Optional(created) && (created != null <==> code == 1)
    ensures M.Inserted(Tree(u), taller, code) == M.InsertLoop(cmp, old(Tree(s)), x, ok, overwrite)
    decreases s, 2
  {
    if p == null {
      if ok {
        q := new AvlNode(x);
        taller, code, u, created := true, 1, Cons(Nil, q, Nil), q;
      } else {
        q, taller, code, u, created := null, false, -ENOMEM, Nil, null;
      }
    } else if cmp(p.data, x) > 0 {
      q, taller, code, u, created := InsertLeft(cmp, p, s, x, ok, overwrite);
    } else if cmp(p.data, x) < 0 {
      q, taller, code, u, created := InsertRight(cmp, p, s, x, ok, overwrite);
    } else {
      if overwrite { p.data := x; }
      q, taller, code, u, created := p, false, 0, s, null;
    }
  }

  lemma WiderLeft<T>(s: Shape<T>, v: Shape<T>, n: AvlNode?<T>)
    requires s.Cons? && Nodes(v) == Nodes(s.left) + Optional(n)
    ensures Nodes(s.(left := v)) == Nodes(s) + Optional(n)
  {
  }

  lemma WiderRight<T>(s: Shape<T>, v: Shape<T>, n: AvlNode?<T>)
    requires s.Cons? && Nodes(v) == Nodes(s.right) + Optional(n)
    ensures Nodes(s.(right := v)) == Nodes(s) + Optional(n)
  {
  }

  method InsertLeft<T>(cmp: (T, T) -> int, p: AvlNode<T>, ghost s: Shape<T>, x: T, ok: bool, overwrite: bool)
    returns (q: AvlNode<T>, taller: bool, code: int, ghost u: Shape<T>, ghost created: AvlNode?<T>)
    requires Holds(p, s) && M.Balanced(Tree(s)) && cmp(p.data, x) > 0
    modifies Nodes(s)
    ensures Holds(q, u) && fresh(Nodes(u) - Nodes(s))
    ensures Nodes(u) == Nodes(s) + Optional(created) && (created != null <==> code == 1)
    ensures M.Inserted(Tree(u), taller, code) == M.InsertLoop(cmp, old(Tree(s)), x, ok, overwrite)
    decreases s, 1
  {
    assert allocated(Nodes(s));
    ghost var v;
    v, taller, code, created := InsertBelowLeft(cmp, p, s, x, ok, overwrite);
    WiderLeft(s, v, created);
    q, taller, u := FixAfterLeftInsert(p, s.(left := v), taller);
  }

  method InsertRight<T>(cmp: (T, T) -> int, p: AvlNode<T>, ghost s: Shape<T>, x: T, ok: bool, overwrite: bool)
    returns (q: AvlNode<T>, taller: bool, code: int, ghost u: Shape<T>, ghost created: AvlNode?<T>)
    requires Holds(p, s) && M.Balanced(Tree(s)) && cmp(p.data, x) < 0
    modifies Nodes(s)
    ensures Holds(q, u) && fresh(Nodes(u) - Nodes(s))
    ensures Nodes(u) == Nodes(s) + Optional(created) && (created != null <==> code == 1)
    ensures M.Inserted(Tree(u), taller, code) == M.InsertLoop(cmp, old(Tree(s)), x, ok, overwrite)
    decreases s, 1
  {
    assert allocated(Nodes(s));
    ghost var v;
    v, taller, code, created := InsertBelowRight(cmp, p, s, x, ok, overwrite);
    WiderRight(s, v, created);
    q, taller, u := FixAfterRightInsert(p, s.(right := v), taller);
  }

  /** The recursive call on the left link, which is written back in place. */
  method InsertBelowLeft<T>(cmp: (T, T) -> int, p: AvlNode<T>, ghost s: Shape<T>, x: T, ok: bool, overwrite: bool)
    returns (ghost v: Shape<T>, taller: bool, code: int, ghost created: AvlNode?<T>)
    requires Holds(p, s) && s.Cons? && M.Balanced(Tree(s.left))
    modifies Nodes(s)
    ensures Holds(p, s.(left := v)) && fresh(Nodes(v) - Nodes(s.left))
    ensures Nodes(v) == Nodes(s.left) + Optional(created) && (created != null <==> code == 1)
    ensures M.Inserted(Tree(v), taller, code) == M.InsertLoop(cmp, old(Tree(s.left)), x, ok, overwrite)
    ensures p.data == old(p.data) && p.balance == old(p.balance) && Tree(s.right) == old(Tree(s.right))
    decreases s, 0
  {
    assert allocated(Nodes(s));
    var c;
    c, taller, code, v, created := InsertLoop(cmp, p.left, s.left, x, ok, overwrite);
    assert Holds(p.right, s.right) && Tree(s.right) == old(Tree(s.right));
    p.left := c;
  }

  /** The recursive call on the right link, which is written back in place. */
  method InsertBelowRight<T>(cmp: (T, T) -> int, p: AvlNode<T>, ghost s: Shape<T>, x: T, ok: bool, overwrite: bool)
    returns (ghost v: Shape<T>, taller: bool, code: int, ghost created: AvlNode?<T>)
    requires Holds(p, s) && s.Cons? && M.Balanced(Tree(s.right))
    modifies Nodes(s)
    ensures Holds(p, s.(right := v)) && fresh(Nodes(v) - Nodes(s.right))
    ensures Nodes(v) == Nodes(s.right) + Optional(created) && (created != null <==> code == 1)
    ensures M.Inserted(Tree(v), taller, code) == M.InsertLoop(cmp, old(Tree(s.right)), x, ok, overwrite)
    ensures p.data == old(p.data) && p.balance == old(p.balance) && Tree(s.left) == old(Tree(s.left))
    decreases s, 0
  {
    assert allocated(Nodes(s));
    var c;
    c, taller, code, v, created := InsertLoop(cmp, p.right, s.right, x, ok, overwrite);
    assert Holds(p.left, s.left) && Tree(s.left) == old(Tree(s.left));
    p.right := c;
  }

  /** avl_tree_delete_loop while `pDeletedDataNode` is set: the largest element below `p` is
      written into the `data` field of that node, which lies above `p`. */
  method TakeMax<T>(p: AvlNode<T>, ghost s: Shape<T>, deletedDataNode: AvlNode<T>)
    returns (q: AvlNode?<T>, shorter: bool, ghost u: Shape<T>)
    requires Holds(p, s) && M.Balanced(Tree(s)) && deletedDataNode !in Nodes(s)
    modifies Nodes(s), deletedDataNode`data
    ensures Holds(q, u) && Nodes(u) <= Nodes(s)
    ensures M.MaxTaken(deletedDataNode.data, Tree(u), shorter) == M.TakeMax(old(Tree(s)))
    decreases s, 1
  {
    if p.right == null {
      deletedDataNode.data := p.data;
      q, shorter, u := p.left, true, s.left;
    } else {
      assert allocated(Nodes(s));
      ghost var v;
      v, shorter := TakeMaxBelow(p, s, deletedDataNode);
      q, shorter, u := FixAfterRightDelete(p, s.(right := v), shorter);
    }
  }

  method TakeMaxBelow<T>(p: AvlNode<T>, ghost s: Shape<T>, deletedDataNode: AvlNode<T>)
    returns (ghost v: Shape<T>, shorter: bool)
    requires Holds(p, s) && s.Cons? && Tree(s.right).Node? && M.Balanced(Tree(s.right)) && deletedDataNode !in Nodes(s)
    modifies Nodes(s), deletedDataNode`data
    ensures Holds(p, s.(right := v)) && Nodes(v) <= Nodes(s.right)
    ensures M.MaxTaken(deletedDataNode.data, Tree(v), shorter) == M.TakeMax(old(Tree(s.right)))
    ensures p.data == old(p.data) && p.balance == old(p.balance) && Tree(s.left) == old(Tree(s.left))
    decreases s, 0
  {
    assert allocated(Nodes(s));
    var c;
    c, shorter, v := TakeMax(p.right, s.right, deletedDataNode);
    assert Holds(p.left, s.left) && Tree(s.left) == old(Tree(s.left));
    p.right := c;
  }

  /** avl_tree_delete_loop proper. */
  method DeleteLoop<T>(cmp: (T, T) -> int, p: AvlNode<T>, ghost s: Shape<T>, x: T)
    returns (q: AvlNode?<T>, shorter: bool, code: int, ghost u: Shape<T>)
    requires Holds(p, s) && M.Balanced(Tree(s))
    modifies Nodes(s)
    ensures Holds(q, u) && Nodes(u) <= Nodes(s)
    ensures M.Deleted(Tree(u), shorter, code) == M.DeleteLoop(cmp, old(Tree(s)), x)
    decreases s, 1
  {
    q, shorter, code, u := p, false, 0, s;
    if cmp(p.data, x) > 0 {
      if p.left != null {
        assert allocated(Nodes(s));
        ghost var v;
        v, shorter, code := DeleteBelowLeft(cmp, p, s, x);
        q, shorter, u := FixAfterLeftDelete(p, s.(left := v), shorter);
      }
    } else if cmp(p.data, x) < 0 {
      if p.right != null {
        assert allocated(Nodes(s));
        ghost var v;
        v, shorter, code := DeleteBelowRight(cmp, p, s, x);
        q, shorter, u := FixAfterRightDelete(p, s.(right := v), shorter);
      }
    } else if p.left == null {
      q, shorter, code, u := p.right, true, 1, s.right;
    } else if p.right == null {
      q, shorter, code, u := p.left, true, 1, s.left;
    } else {
      q, shorter, u := DeleteHere(p, s);
      code := 1;
    }
  }

  /** The two-child case: the predecessor's data moves up into `p`. */
  method DeleteHere<T>(p: AvlNode<T>, ghost s: Shape<T>)
    returns (q: AvlNode?<T>, shorter: bool, ghost u: Shape<T>)
    requires Holds(p, s) && M.Balanced(Tree(s)) && Tree(s).left.Node?
    modifies Nodes(s)
    ensures Holds(q, u) && Nodes(u) <= Nodes(s)
    ensures var m := M.TakeMax(old(Tree(s)).left);
      (Tree(u), shorter) == M.FixAfterLeftDelete(old(Tree(s)).(data := m.data, left := m.tree), m.shorter)
  {
    assert allocated(Nodes(s));
    assert Holds(p.left, s.left);
    ghost var v;
    v, shorter := TakePredecessor(p, s);
    q, shorter, u := FixAfterLeftDelete(p, s.(left := v), shorter);
  }

  method TakePredecessor<T>(p: AvlNode<T>, ghost s: Shape<T>)
    returns (ghost v: Shape<T>, shorter: bool)
    requires Holds(p, s) && s.Cons? && Tree(s.left).Node? && M.Balanced(Tree(s.left))
    modifies Nodes(s)
    ensures Holds(p, s.(left := v)) && Nodes(v) <= Nodes(s.left)
    ensures M.MaxTaken(p.data, Tree(v), shorter) == M.TakeMax(old(Tree(s.left)))
    ensures p.balance == old(p.balance) && Tree(s.right) == old(Tree(s.right))
  {
    assert allocated(Nodes(s));
    var c;
    c, shorter, v := TakeMax(p.left, s.left, p);
    assert Holds(p.right, s.right) && Tree(s.right) == old(Tree(s.right));
    p.left := c;
  }

  method DeleteBelowLeft<T>(cmp: (T, T) -> int, p: AvlNode<T>, ghost s: Shape<T>, x: T)
    returns (ghost v: Shape<T>, shorter: bool, code: int)
    requires Holds(p, s) && s.Cons? && Tree(s.left).Node? && M.Balanced(Tree(s.left))
    modifies Nodes(s)
    ensures Holds(p, s.(left := v)) && Nodes(v) <= Nodes(s.left)
    ensures M.Deleted(Tree(v), shorter, code) == M.DeleteLoop(cmp, old(Tree(s.left)), x)
    ensures p.data == old(p.data) && p.balance == old(p.balance) && Tree(s.right) == old(Tree(s.right))
    decreases s, 0
  {
    assert allocated(Nodes(s));
    var c;
    c, shorter, code, v := DeleteLoop(cmp, p.left, s.left, x);
    assert Holds(p.right, s.right) && Tree(s.right) == old(Tree(s.right));
    p.left := c;
  }

  method DeleteBelowRight<T>(cmp: (T, T) -> int, p: AvlNode<T>, ghost s: Shape<T>, x: T)
    returns (ghost v: Shape<T>, shorter: bool, code: int)
    requires Holds(p, s) && s.Cons? && Tree(s.right).Node? && M.Balanced(Tree(s.right))
    modifies Nodes(s)
    ensures Holds(p, s.(right := v)) && Nodes(v) <= Nodes(s.right)
    ensures M.Deleted(Tree(v), shorter, code) == M.DeleteLoop(cmp, old(Tree(s.right)), x)
    ensures p.data == old(p.data) && p.balance == old(p.balance) && Tree(s.left) == old(Tree(s.left))
    decreases s, 0
  {
    assert allocated(Nodes(s));
    var c;
    c, shorter, code, v := DeleteLoop(cmp, p.right, s.right, x);
    assert Holds(p.left, s.left) && Tree(s.left) == old(Tree(s.left));
    p.right := c;
  }

  method FindLoop<T>(cmp: (T, T) -> int, p: AvlNode<T>, ghost s: Shape<T>, x: T) returns (found: AvlNode?<T>)
    requires Holds(p, s)
    ensures found != null ==> found in Nodes(s)
    ensures M.FindLoop(cmp, Tree(s), x) == if found == null then None else Some(found.data)
    decreases s
  {
    if cmp(p.data, x) > 0 {
      if p.left == null { found := null; } else { found := FindLoop(cmp, p.left, s.left, x); }
    } else if cmp(p.data, x) < 0 {
      if p.right == null { found := null; } else { found := FindLoop(cmp, p.right, s.right, x); }
    } else {
      found := p;
    }
  }

  method FindGeLoop<T>(cmp: (T, T) -> int, p: AvlNode<T>, ghost s: Shape<T>, x: T) returns (found: Option<T>)
    requires Holds(p, s)
    ensures found == M.FindGeLoop(cmp, Tree(s), x)
    decreases s
  {
    if cmp(p.data, x) > 0 {
      if p.left == null { return Some(p.data); }
      found := FindGeLoop(cmp, p.left, s.left, x);
      if found.None? { found := Some(p.data); }
    } else if cmp(p.data, x) < 0 {
      if p.right == null { found := None; } else { found := FindGeLoop(cmp, p.right, s.right, x); }
    } else {
      found := Some(p.data);
    }
  }

  method CountLoop<T>(p: AvlNode<T>, ghost s: Shape<T>, count: int) returns (count': int)
    requires Holds(p, s)
    ensures count' == count + M.Size(Tree(s))
    decreases s
  {
    assert allocated(Nodes(s));
    count' := count;
    if p.left != null { count' := CountLoop(p.left, s.left, count'); }
    count' := count' + 1;
    if p.right != null { count' := CountLoop(p.right, s.right, count'); }
  }

  /** One path, chosen by the balance fields, measures the height of the whole tree. */
  method DepthLoop<T>(root: AvlNode?<T>, ghost shape: Shape<T>) returns (depth: nat)
    requires Holds(root, shape)
    ensures depth == M.PathDepth(Tree(shape))
    ensures M.Balanced(Tree(shape)) ==> depth == M.Height(Tree(shape))
  {
    if M.Balanced(Tree(shape)) { M.PathDepthIsHeight(Tree(shape)); }
    depth := 0;
    var p := root;
    ghost var s := shape;
    while p != null
      invariant Holds(p, s) && depth + M.PathDepth(Tree(s)) == M.PathDepth(Tree(shape))
      decreases s
    {
      if p.balance == -1 {
        p, s := p.left, s.left;
      } else {
        p, s := p.right, s.right;
      }
      depth := depth + 1;
    }
  }

  /** AVLTreeInfo with its public operations, as a set of elements distinct under `cmp`. */
  class AvlTreeInfo<T(!new)> {
    var root: AvlNode?<T>
    const cmp: (T, T) -> int
    ghost var shape: Shape<T>

    ghost predicate Valid()
      reads this, Nodes(shape)
    {
      M.TotalPreorder(cmp) && Holds(root, shape) && M.Valid(cmp, Tree(shape))
    }

    ghost function Elements(): set<T>
      reads this, Nodes(shape)
    {
      M.Contents(Tree(shape))
    }

    constructor (compare: (T, T) -> int)
      requires M.TotalPreorder(compare)
      ensures Valid() && Elements() == {} && cmp == compare && shape == Nil
    {
      root, cmp, shape := null, compare, Nil;
    }

    /** Common body of the two insertions: the loop on the root link. */
    method Put(x: T, ok: bool, overwrite: bool) returns (code: int)
      requires Valid()
      modifies this, Nodes(shape)
      ensures Valid() && fresh(Nodes(shape) - old(Nodes(shape)))
      ensures (Elements(), code) == M.SetInsert(cmp, old(Elements()), x, ok, overwrite)
      ensures code < 0 || (code == 0 && !overwrite) ==> Tree(shape) == old(Tree(shape))
    {
      M.InsertMeetsSet(cmp, Tree(shape), x, ok, overwrite);
      var q, _, c, u, _ := InsertLoop(cmp, root, shape, x, ok, overwrite);
      root, shape, code := q, u, c;
    }

    method Insert(x: T, ok: bool) returns (code: int)
      requires Valid()
      modifies this, Nodes(shape)
      ensures Valid() && fresh(Nodes(shape) - old(Nodes(shape)))
      ensures (Elements(), code) == M.SetInsert(cmp, old(Elements()), x, ok, false)
      ensures code <= 0 ==> Tree(shape) == old(Tree(shape))
    {
      code := Put(x, ok, false);
    }

    method Replace(x: T, ok: bool) returns (code: int)
      requires Valid()
      modifies this, Nodes(shape)
      ensures Valid() && fresh(Nodes(shape) - old(Nodes(shape)))
      ensures (Elements(), code) == M.SetInsert(cmp, old(Elements()), x, ok, true)
      ensures code < 0 ==> Tree(shape) == old(Tree(shape))
    {
      code := Put(x, ok, true);
    }

    method Delete(x: T) returns (code: int)
      requires Valid()
      modifies this, Nodes(shape)
      ensures Valid() && Nodes(shape) <= old(Nodes(shape))
      ensures Elements() == M.Without(cmp, old(Elements()), x)
      ensures code == if M.Has(cmp, old(Elements()), x) then 1 else 0
      ensures code == 0 ==> Tree(shape) == old(Tree(shape))
    {
      if root == null {
        assert M.Without(cmp, Elements(), x) == {};
        return 0;
      }
      ghost var t := Tree(shape);
      M.DeleteMeetsSet(cmp, t, x);
      var q, _, c, u := DeleteLoop(cmp, root, shape, x);
      root, shape, code := q, u, c;
      assert Tree(shape) == M.DeleteLoop(cmp, t, x).tree;
    }

    method Find(x: T) returns (found: Option<T>)
      requires Valid()
      ensures found.Some? <==> M.Has(cmp, Elements(), x)
      ensures found.Some? ==> found.value in Elements() && cmp(found.value, x) == 0
    {
      assert allocated(Nodes(shape));
      M.FindMeetsSet(cmp, Tree(shape), x);
      if root == null { return None; }
      var node := FindLoop(cmp, root, shape, x);
      found := if node == null then None else Some(node.data);
    }

    method FindGe(x: T) returns (found: Option<T>)
      requires Valid()
      ensures found.None? <==> M.AllBelow(cmp, Elements(), x)
      ensures found.Some? ==> M.LeastNotBelow(cmp, Elements(), x, found.value)
    {
      assert allocated(Nodes(shape));
      M.FindGeMeetsSet(cmp, Tree(shape), x);
      if root == null { return None; }
      found := FindGeLoop(cmp, root, shape, x);
    }

    method Count() returns (count: int)
      requires Valid()
      ensures count == |Elements()|
    {
      assert allocated(Nodes(shape));
      assert M.Size(Tree(shape)) == |Elements()| by { M.SizeIsCardinality(cmp, Tree(shape)); }
      if root == null { return 0; }
      count := CountLoop(root, shape, 0);
    }

    method Depth() returns (depth: nat)
      requires Valid()
      ensures depth == M.Height(Tree(shape))
      ensures M.Fib(depth + 2) <= |Elements()| + 1
    {
      assert allocated(Nodes(shape));
      ghost var t := Tree(shape);
      depth := DepthLoop(root, shape);
      M.PathDepthIsHeight(t);
      M.SizeAtLeastFib(t);
      M.SizeIsCardinality(cmp, t);
    }
  }
}
