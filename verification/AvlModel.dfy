/** The AVL tree of common/avl_tree.c as a value: what each pointer-rewriting routine does to
    the tree hanging below a link, and what the whole library promises about it.

    A tree is what a link (an `AVLTreeNode *`) denotes.  A routine that takes an
    `AVLTreeNode **` is a function from the tree below the link to the new tree below it.
    The heap routines in module AvlTree are proved to compute exactly these functions. */
module AvlModel {
  import opened Common

  datatype Tree<T> = Leaf | Node(left: Tree<T>, data: T, balance: int, right: Tree<T>)

  /** What an insertion loop leaves behind: the new subtree, `*taller` and the result code. */
  datatype Inserted<T> = Inserted(tree: Tree<T>, taller: bool, code: int)

  /** What a deletion loop leaves behind: the new subtree, `*shorter` and the result code. */
  datatype Deleted<T> = Deleted(tree: Tree<T>, shorter: bool, code: int)

  /** What the predecessor mode of the deletion loop does: the data it moves up, and the rest. */
  datatype MaxTaken<T> = MaxTaken(data: T, tree: Tree<T>, shorter: bool)

  // ----- the invariant --------------------------------------------------------------------

  function Above(h: int, k: int): int { 1 + if h > k then h else k }

  function Int(b: bool): int { if b then 1 else 0 }

  function Height<T>(t: Tree<T>): nat {
    match t
    case Leaf => 0
    case Node(l, _, _, r) => Above(Height(l), Height(r))
  }

  /** Every stored balance field is height(right) - height(left), and lies in {-1, 0, 1}. */
  predicate Balanced<T>(t: Tree<T>) {
    match t
    case Leaf => true
    case Node(l, _, b, r) =>
      Balanced(l) && Balanced(r) && b == Height(r) - Height(l) && -1 <= b <= 1
  }

  ghost function Contents<T>(t: Tree<T>): set<T> {
    match t
    case Leaf => {}
    case Node(l, d, _, r) => Contents(l) + {d} + Contents(r)
  }

  /** `compare_func` is a total preorder, read off the sign of its result. */
  ghost predicate TotalPreorder<T(!new)>(cmp: (T, T) -> int) {
    && (forall x, y :: cmp(x, y) < 0 <==> cmp(y, x) > 0)
    && (forall x, y, z :: Chained(cmp, x, y, z) ==> cmp(x, z) <= 0)
  }

  ghost predicate Chained<T>(cmp: (T, T) -> int, x: T, y: T, z: T) {
    cmp(x, y) <= 0 && cmp(y, z) <= 0
  }

  /** Strictly between: the one consequence of the preorder that the proofs use. */
  lemma Between<T(!new)>(cmp: (T, T) -> int, x: T, y: T, z: T)
    requires TotalPreorder(cmp) && Chained(cmp, x, y, z)
    requires cmp(x, y) < 0 || cmp(y, z) < 0
    ensures cmp(x, z) < 0
  {
    if cmp(x, z) >= 0 {
      assert cmp(z, x) <= 0;
      if cmp(x, y) < 0 { assert Chained(cmp, y, z, x); } else { assert Chained(cmp, z, x, y); }
    }
  }

  ghost predicate AllBelow<T>(cmp: (T, T) -> int, s: set<T>, d: T) {
    forall y :: y in s ==> cmp(y, d) < 0
  }

  ghost predicate AllAbove<T>(cmp: (T, T) -> int, s: set<T>, d: T) {
    forall y :: y in s ==> cmp(d, y) < 0
  }

  /** Strictly ordered: a binary search tree without two equal elements. */
  ghost predicate Ordered<T>(cmp: (T, T) -> int, t: Tree<T>) {
    match t
    case Leaf => true
    case Node(l, d, _, r) =>
      && Ordered(cmp, l) && Ordered(cmp, r)
      && AllBelow(cmp, Contents(l), d) && AllAbove(cmp, Contents(r), d)
  }

  ghost predicate Valid<T>(cmp: (T, T) -> int, t: Tree<T>) {
    Balanced(t) && Ordered(cmp, t)
  }

  // ----- rotations and rebalancers --------------------------------------------------------

  function RotateLeft<T>(t: Tree<T>): Tree<T>
    requires t.Node? && t.right.Node?
  {
    t.right.(left := t.(right := t.right.left))
  }

  function RotateRight<T>(t: Tree<T>): Tree<T>
    requires t.Node? && t.left.Node?
  {
    t.left.(right := t.(left := t.left.right))
  }

  /** The `case 1` arm of both left rebalancers: left rotation of the left child, then a right
      rotation, with the balance fields set from the balance of the grandchild. */
  function DoubleRight<T>(t: Tree<T>): Tree<T>
    requires t.Node? && t.left.Node? && t.left.right.Node?
  {
    var l := t.left;
    var g := l.right;
    var tb := if g.balance == -1 then 1 else if g.balance == 0 || g.balance == 1 then 0 else t.balance;
    var lb := if g.balance == -1 || g.balance == 0 then 0 else if g.balance == 1 then -1 else l.balance;
    var l' := l.(balance := lb, right := g.(balance := 0));
    RotateRight(t.(balance := tb, left := RotateLeft(l')))
  }

  /** The `case -1` arm of both right rebalancers. */
  function DoubleLeft<T>(t: Tree<T>): Tree<T>
    requires t.Node? && t.right.Node? && t.right.left.Node?
  {
    var r := t.right;
    var g := r.left;
    var tb := if g.balance == 1 then -1 else if g.balance == 0 || g.balance == -1 then 0 else t.balance;
    var rb := if g.balance == 1 || g.balance == 0 then 0 else if g.balance == -1 then 1 else r.balance;
    var r' := r.(balance := rb, left := g.(balance := 0));
    RotateLeft(t.(balance := tb, right := RotateRight(r')))
  }

  /** The shapes on which the left rebalancers dereference no null link. */
  predicate LeftShape<T>(t: Tree<T>) {
    t.Node? && t.left.Node? && (t.left.balance == 1 ==> t.left.right.Node?)
  }

  predicate RightShape<T>(t: Tree<T>) {
    t.Node? && t.right.Node? && (t.right.balance == -1 ==> t.right.left.Node?)
  }

  function LeftBalanceWhenInsert<T>(t: Tree<T>, taller: bool): (Tree<T>, bool)
    requires LeftShape(t)
  {
    if t.left.balance == -1 then
      (RotateRight(t.(balance := 0, left := t.left.(balance := 0))), false)
    else if t.left.balance == 1 then (DoubleRight(t), false)
    else (t, taller)
  }

  function RightBalanceWhenInsert<T>(t: Tree<T>, taller: bool): (Tree<T>, bool)
    requires RightShape(t)
  {
    if t.right.balance == 1 then
      (RotateLeft(t.(balance := 0, right := t.right.(balance := 0))), false)
    else if t.right.balance == -1 then (DoubleLeft(t), false)
    else (t, taller)
  }

  function LeftBalanceWhenDelete<T>(t: Tree<T>, shorter: bool): (Tree<T>, bool)
    requires LeftShape(t)
  {
    if t.left.balance == -1 then
      (RotateRight(t.(balance := 0, left := t.left.(balance := 0))), shorter)
    else if t.left.balance == 0 then
      (RotateRight(t.(left := t.left.(balance := 1))), false)
    else if t.left.balance == 1 then (DoubleRight(t), shorter)
    else (t, shorter)
  }

  function RightBalanceWhenDelete<T>(t: Tree<T>, shorter: bool): (Tree<T>, bool)
    requires RightShape(t)
  {
    if t.right.balance == 1 then
      (RotateLeft(t.(balance := 0, right := t.right.(balance := 0))), shorter)
    else if t.right.balance == 0 then
      (RotateLeft(t.(right := t.right.(balance := -1))), false)
    else if t.right.balance == -1 then (DoubleLeft(t), shorter)
    else (t, shorter)
  }

  // ----- what a subtree's height change does to its parent ----------------------------------

  /** The state in which a parent is repaired: its subtrees are in order, but its balance field
      still describes a left subtree lower by `dl` and a right subtree lower by `dr`. */
  predicate Stale<T>(t: Tree<T>, dl: int, dr: int) {
    && t.Node? && Balanced(t.left) && Balanced(t.right) && -1 <= t.balance <= 1
    && t.balance == (Height(t.right) - dr) - (Height(t.left) - dl)
  }

  /** All arms of the left rebalancers: the repaired node is balanced again; it loses a level
      unless the left child was even, in which case (deletion only) it keeps its height. */
  lemma LeftRebalanced<T>(t: Tree<T>, f: bool)
    requires t.Node? && Balanced(t.left) && Balanced(t.right)
    requires t.balance == -1 && Height(t.left) == Height(t.right) + 2
    ensures LeftShape(t)
    ensures var r := LeftBalanceWhenDelete(t, f);
      && Balanced(r.0)
      && Height(r.0) == Height(t) - 1 + Int(t.left.balance == 0)
      && r.1 == (f && t.left.balance != 0)
      && (t.left.balance != 0 ==> LeftBalanceWhenInsert(t, f) == (r.0, false))
  {
    if t.left.balance == 1 { DoubleRightBalances(t); } else { RotateRightBalances(t); }
  }

  lemma RotateRightBalances<T>(t: Tree<T>)
    requires t.Node? && Balanced(t.left) && Balanced(t.right)
    requires t.balance == -1 && Height(t.left) == Height(t.right) + 2 && t.left.balance != 1
    ensures var u := LeftBalanceWhenDelete(t, true).0;
      Balanced(u) && Height(u) == Height(t) - 1 + Int(t.left.balance == 0)
  {
    var u := LeftBalanceWhenDelete(t, true).0;
    assert u.left == t.left.left && u.right.left == t.left.right && u.right.right == t.right;
    assert Balanced(u.right);
  }

  lemma DoubleRightBalances<T>(t: Tree<T>)
    requires t.Node? && Balanced(t.left) && Balanced(t.right)
    requires Height(t.left) == Height(t.right) + 2 && t.left.balance == 1
    ensures t.left.right.Node?
    ensures var u := DoubleRight(t); Balanced(u) && Height(u) == Height(t) - 1
  {
    var l, g, u := t.left, t.left.right, DoubleRight(t);
    assert u.left.left == l.left && u.left.right == g.left && Balanced(u.left);
    assert u.right.left == g.right && u.right.right == t.right && Balanced(u.right);
  }

  lemma RightRebalanced<T>(t: Tree<T>, f: bool)
    requires t.Node? && Balanced(t.left) && Balanced(t.right)
    requires t.balance == 1 && Height(t.right) == Height(t.left) + 2
    ensures RightShape(t)
    ensures var r := RightBalanceWhenDelete(t, f);
      && Balanced(r.0)
      && Height(r.0) == Height(t) - 1 + Int(t.right.balance == 0)
      && r.1 == (f && t.right.balance != 0)
      && (t.right.balance != 0 ==> RightBalanceWhenInsert(t, f) == (r.0, false))
  {
    if t.right.balance == -1 { DoubleLeftBalances(t); } else { RotateLeftBalances(t); }
  }

  lemma RotateLeftBalances<T>(t: Tree<T>)
    requires t.Node? && Balanced(t.left) && Balanced(t.right)
    requires t.balance == 1 && Height(t.right) == Height(t.left) + 2 && t.right.balance != -1
    ensures var u := RightBalanceWhenDelete(t, true).0;
      Balanced(u) && Height(u) == Height(t) - 1 + Int(t.right.balance == 0)
  {
    var u := RightBalanceWhenDelete(t, true).0;
    assert u.right == t.right.right && u.left.right == t.right.left && u.left.left == t.left;
    assert Balanced(u.left);
  }

  lemma DoubleLeftBalances<T>(t: Tree<T>)
    requires t.Node? && Balanced(t.left) && Balanced(t.right)
    requires Height(t.right) == Height(t.left) + 2 && t.right.balance == -1
    ensures t.right.left.Node?
    ensures var u := DoubleLeft(t); Balanced(u) && Height(u) == Height(t) - 1
  {
    var r, g, u := t.right, t.right.left, DoubleLeft(t);
    assert u.right.right == r.right && u.right.left == g.right && Balanced(u.right);
    assert u.left.right == g.left && u.left.left == t.left && Balanced(u.left);
  }

  /** After an insertion below the left link. */
  function FixAfterLeftInsert<T>(t: Tree<T>, taller: bool): (r: (Tree<T>, bool))
    requires Stale(t, Int(taller), 0)
    requires taller && t.balance == -1 ==> t.left.Node? && t.left.balance != 0
    ensures Balanced(r.0)
    ensures Height(r.0) == Above(Height(t.left) - Int(taller), Height(t.right)) + Int(r.1)
    ensures r.1 ==> r.0.Node? && r.0.balance != 0
  {
    if !taller then (t, false)
    else if t.balance == -1 then LeftRebalanced(t, taller); LeftBalanceWhenInsert(t, taller)
    else if t.balance == 0 then (t.(balance := -1), true)
    else (t.(balance := 0), false)
  }

  function FixAfterRightInsert<T>(t: Tree<T>, taller: bool): (r: (Tree<T>, bool))
    requires Stale(t, 0, Int(taller))
    requires taller && t.balance == 1 ==> t.right.Node? && t.right.balance != 0
    ensures Balanced(r.0)
    ensures Height(r.0) == Above(Height(t.left), Height(t.right) - Int(taller)) + Int(r.1)
    ensures r.1 ==> r.0.Node? && r.0.balance != 0
  {
    if !taller then (t, false)
    else if t.balance == -1 then (t.(balance := 0), false)
    else if t.balance == 0 then (t.(balance := 1), true)
    else RightRebalanced(t, taller); RightBalanceWhenInsert(t, taller)
  }

  /** After a deletion below the left link. */
  function FixAfterLeftDelete<T>(t: Tree<T>, shorter: bool): (r: (Tree<T>, bool))
    requires Stale(t, -Int(shorter), 0)
    ensures Balanced(r.0)
    ensures Above(Height(t.left) + Int(shorter), Height(t.right)) == Height(r.0) + Int(r.1)
  {
    if !shorter then (t, false)
    else if t.balance == -1 then (t.(balance := 0), true)
    else if t.balance == 0 then (t.(balance := 1), false)
    else RightRebalanced(t, shorter); RightBalanceWhenDelete(t, shorter)
  }

  function FixAfterRightDelete<T>(t: Tree<T>, shorter: bool): (r: (Tree<T>, bool))
    requires Stale(t, 0, -Int(shorter))
    ensures Balanced(r.0)
    ensures Above(Height(t.left), Height(t.right) + Int(shorter)) == Height(r.0) + Int(r.1)
  {
    if !shorter then (t, false)
    else if t.balance == -1 then LeftRebalanced(t, shorter); LeftBalanceWhenDelete(t, shorter)
    else if t.balance == 0 then (t.(balance := -1), false)
    else (t.(balance := 0), true)
  }

  // ----- the loops --------------------------------------------------------------------------

  predicate GrownFrom<T>(t: Tree<T>, r: Inserted<T>) {
    && Balanced(r.tree) && Height(r.tree) == Height(t) + Int(r.taller)
    && (r.taller ==> t.Leaf? || (r.tree.Node? && r.tree.balance != 0))
  }

  /** The end of an insertion below the left link. */
  function InsertedLeft<T>(t: Tree<T>, s: Inserted<T>): (r: Inserted<T>)
    requires t.Node? && Balanced(t) && GrownFrom(t.left, s)
    ensures GrownFrom(t, r)
  {
    var u := FixAfterLeftInsert(t.(left := s.tree), s.taller);
    Inserted(u.0, u.1, s.code)
  }

  function InsertedRight<T>(t: Tree<T>, s: Inserted<T>): (r: Inserted<T>)
    requires t.Node? && Balanced(t) && GrownFrom(t.right, s)
    ensures GrownFrom(t, r)
  {
    var u := FixAfterRightInsert(t.(right := s.tree), s.taller);
    Inserted(u.0, u.1, s.code)
  }

  /** The recursion of insert and (with `overwrite`) replace.  `ok` says whether `malloc`
      succeeds.  The flag reports the height change exactly, and a subtree that grew and was
      not empty before is never left even: the `case 0` arms of the rebalancers are dead. */
  function InsertLoop<T>(cmp: (T, T) -> int, t: Tree<T>, x: T, ok: bool, overwrite: bool): (r: Inserted<T>)
    requires Balanced(t)
    ensures Balanced(r.tree)
    ensures Height(r.tree) == Height(t) + if r.taller then 1 else 0
    ensures r.taller ==> t.Leaf? || (r.tree.Node? && r.tree.balance != 0)
  {
    match t
    case Leaf =>
      if ok then Inserted(Node(Leaf, x, 0, Leaf), true, 1) else Inserted(Leaf, false, -ENOMEM)
    case Node(l, d, _, r) =>
      if cmp(d, x) > 0 then
        InsertedLeft(t, InsertLoop(cmp, l, x, ok, overwrite))
      else if cmp(d, x) < 0 then
        InsertedRight(t, InsertLoop(cmp, r, x, ok, overwrite))
      else if overwrite then Inserted(t.(data := x), false, 0)
      else Inserted(t, false, 0)
  }

  /** The deletion loop when `pDeletedDataNode` is set: take out the largest element. */
  function TakeMax<T>(t: Tree<T>): (r: MaxTaken<T>)
    requires t.Node? && Balanced(t)
    ensures Balanced(r.tree)
    ensures Height(t) == Height(r.tree) + if r.shorter then 1 else 0
  {
    if t.right.Leaf? then MaxTaken(t.data, t.left, true)
    else
      var s := TakeMax(t.right);
      var u := FixAfterRightDelete(t.(right := s.tree), s.shorter);
      MaxTaken(s.data, u.0, u.1)
  }

  /** The deletion loop proper. */
  function DeleteLoop<T>(cmp: (T, T) -> int, t: Tree<T>, x: T): (r: Deleted<T>)
    requires t.Node? && Balanced(t)
    ensures Balanced(r.tree)
    ensures Height(t) == Height(r.tree) + if r.shorter then 1 else 0
  {
    if cmp(t.data, x) > 0 then
      if t.left.Leaf? then Deleted(t, false, 0)
      else
        var s := DeleteLoop(cmp, t.left, x);
        var u := FixAfterLeftDelete(t.(left := s.tree), s.shorter);
        Deleted(u.0, u.1, s.code)
    else if cmp(t.data, x) < 0 then
      if t.right.Leaf? then Deleted(t, false, 0)
      else
        var s := DeleteLoop(cmp, t.right, x);
        var u := FixAfterRightDelete(t.(right := s.tree), s.shorter);
        Deleted(u.0, u.1, s.code)
    else if t.left.Leaf? then Deleted(t.right, true, 1)
    else if t.right.Leaf? then Deleted(t.left, true, 1)
    else
      var s := TakeMax(t.left);
      var u := FixAfterLeftDelete(t.(data := s.data, left := s.tree), s.shorter);
      Deleted(u.0, u.1, 1)
  }

  // ----- order and contents -----------------------------------------------------------------

  ghost predicate Has<T>(cmp: (T, T) -> int, s: set<T>, x: T) {
    exists y :: y in s && cmp(y, x) == 0
  }

  ghost function Without<T>(cmp: (T, T) -> int, s: set<T>, x: T): set<T> {
    set y | y in s && cmp(y, x) != 0
  }

  lemma RotateRightKeeps<T(!new)>(cmp: (T, T) -> int, t: Tree<T>)
    requires TotalPreorder(cmp) && Ordered(cmp, t) && t.Node? && t.left.Node?
    ensures Ordered(cmp, RotateRight(t)) && Contents(RotateRight(t)) == Contents(t)
  {
    var u := RotateRight(t);
    assert Contents(u.right) == Contents(t.left.right) + {t.data} + Contents(t.right);
    assert u.left == t.left.left;
    assert cmp(u.data, t.data) < 0;
    forall y | y in Contents(t.right) ensures cmp(u.data, y) < 0 { Between(cmp, u.data, t.data, y); }
  }

  lemma RotateLeftKeeps<T(!new)>(cmp: (T, T) -> int, t: Tree<T>)
    requires TotalPreorder(cmp) && Ordered(cmp, t) && t.Node? && t.right.Node?
    ensures Ordered(cmp, RotateLeft(t)) && Contents(RotateLeft(t)) == Contents(t)
  {
    var u := RotateLeft(t);
    assert Contents(u.left) == Contents(t.left) + {t.data} + Contents(t.right.left);
    assert u.right == t.right.right;
    assert cmp(t.data, u.data) < 0;
    forall y | y in Contents(t.left) ensures cmp(y, u.data) < 0 { Between(cmp, y, t.data, u.data); }
  }

  /** A balance field is no part of the order. */
  lemma RelabelKeeps<T>(cmp: (T, T) -> int, t: Tree<T>, b: int)
    requires t.Node?
    ensures Ordered(cmp, t.(balance := b)) == Ordered(cmp, t)
    ensures Contents(t.(balance := b)) == Contents(t)
  {
  }

  lemma LeftRebalanceKeeps<T(!new)>(cmp: (T, T) -> int, t: Tree<T>, f: bool)
    requires TotalPreorder(cmp) && Ordered(cmp, t) && LeftShape(t)
    ensures var u := LeftBalanceWhenInsert(t, f).0; Ordered(cmp, u) && Contents(u) == Contents(t)
    ensures var u := LeftBalanceWhenDelete(t, f).0; Ordered(cmp, u) && Contents(u) == Contents(t)
  {
    if t.left.balance == 1 {
      var l, v := t.left, DoubleRight(t);
      var l' := l.(balance := v.left.balance, right := l.right.(balance := 0));
      RelabelKeeps(cmp, l.right, 0);
      RotateLeftKeeps(cmp, l');
      RotateRightKeeps(cmp, t.(balance := v.right.balance, left := RotateLeft(l')));
    } else if t.left.balance == -1 {
      RotateRightKeeps(cmp, t.(balance := 0, left := t.left.(balance := 0)));
    } else if t.left.balance == 0 {
      RotateRightKeeps(cmp, t.(left := t.left.(balance := 1)));
    }
  }

  lemma RightRebalanceKeeps<T(!new)>(cmp: (T, T) -> int, t: Tree<T>, f: bool)
    requires TotalPreorder(cmp) && Ordered(cmp, t) && RightShape(t)
    ensures var u := RightBalanceWhenInsert(t, f).0; Ordered(cmp, u) && Contents(u) == Contents(t)
    ensures var u := RightBalanceWhenDelete(t, f).0; Ordered(cmp, u) && Contents(u) == Contents(t)
  {
    if t.right.balance == -1 {
      var r, v := t.right, DoubleLeft(t);
      var r' := r.(balance := v.right.balance, left := r.left.(balance := 0));
      RelabelKeeps(cmp, r.left, 0);
      RotateRightKeeps(cmp, r');
      RotateLeftKeeps(cmp, t.(balance := v.left.balance, right := RotateRight(r')));
    } else if t.right.balance == 1 {
      RotateLeftKeeps(cmp, t.(balance := 0, right := t.right.(balance := 0)));
    } else if t.right.balance == 0 {
      RotateLeftKeeps(cmp, t.(right := t.right.(balance := -1)));
    }
  }

  lemma FixAfterLeftInsertKeeps<T(!new)>(cmp: (T, T) -> int, t: Tree<T>, taller: bool)
    requires TotalPreorder(cmp) && t.Node? && Ordered(cmp, t)
    requires Stale(t, Int(taller), 0) && (taller && t.balance == -1 ==> t.left.Node? && t.left.balance != 0)
    ensures var u := FixAfterLeftInsert(t, taller).0; Ordered(cmp, u) && Contents(u) == Contents(t)
  {
    if LeftShape(t) { LeftRebalanceKeeps(cmp, t, taller); }
  }

  lemma FixAfterRightInsertKeeps<T(!new)>(cmp: (T, T) -> int, t: Tree<T>, taller: bool)
    requires TotalPreorder(cmp) && t.Node? && Ordered(cmp, t)
    requires Stale(t, 0, Int(taller)) && (taller && t.balance == 1 ==> t.right.Node? && t.right.balance != 0)
    ensures var u := FixAfterRightInsert(t, taller).0; Ordered(cmp, u) && Contents(u) == Contents(t)
  {
    if RightShape(t) { RightRebalanceKeeps(cmp, t, taller); }
  }

  lemma FixAfterLeftDeleteKeeps<T(!new)>(cmp: (T, T) -> int, t: Tree<T>, shorter: bool)
    requires TotalPreorder(cmp) && t.Node? && Ordered(cmp, t)
    requires Stale(t, -Int(shorter), 0)
    ensures var u := FixAfterLeftDelete(t, shorter).0; Ordered(cmp, u) && Contents(u) == Contents(t)
  {
    if RightShape(t) { RightRebalanceKeeps(cmp, t, shorter); }
  }

  lemma FixAfterRightDeleteKeeps<T(!new)>(cmp: (T, T) -> int, t: Tree<T>, shorter: bool)
    requires TotalPreorder(cmp) && t.Node? && Ordered(cmp, t)
    requires Stale(t, 0, -Int(shorter))
    ensures var u := FixAfterRightDelete(t, shorter).0; Ordered(cmp, u) && Contents(u) == Contents(t)
  {
    if LeftShape(t) { LeftRebalanceKeeps(cmp, t, shorter); }
  }

  /** Elements cut at `d`, as the contents of a tree are cut at its root. */
  ghost predicate Cut<T>(cmp: (T, T) -> int, l: set<T>, d: T, r: set<T>) {
    AllBelow(cmp, l, d) && AllAbove(cmp, r, d)
  }

  /** Only the lower part can hold an element equal to a target below `d`. */
  lemma LookLow<T(!new)>(cmp: (T, T) -> int, l: set<T>, d: T, r: set<T>, x: T)
    requires TotalPreorder(cmp) && Cut(cmp, l, d, r) && cmp(d, x) > 0
    ensures Has(cmp, l + {d} + r, x) <==> Has(cmp, l, x)
    ensures Without(cmp, l + {d} + r, x) == Without(cmp, l, x) + {d} + r
  {
    forall y | y in r ensures cmp(y, x) > 0 { Between(cmp, x, d, y); }
  }

  lemma LookHigh<T(!new)>(cmp: (T, T) -> int, l: set<T>, d: T, r: set<T>, x: T)
    requires TotalPreorder(cmp) && Cut(cmp, l, d, r) && cmp(d, x) < 0
    ensures Has(cmp, l + {d} + r, x) <==> Has(cmp, r, x)
    ensures Without(cmp, l + {d} + r, x) == l + {d} + Without(cmp, r, x)
  {
    forall y | y in l ensures cmp(y, x) < 0 { Between(cmp, y, d, x); }
  }

  /** An element equal to `d` is `d` and nothing else. */
  lemma LookHere<T(!new)>(cmp: (T, T) -> int, l: set<T>, d: T, r: set<T>, x: T)
    requires TotalPreorder(cmp) && Cut(cmp, l, d, r) && cmp(d, x) == 0
    ensures Has(cmp, l + {d} + r, x)
    ensures Without(cmp, l + {d} + r, x) == l + r
    ensures Cut(cmp, l, x, r)
  {
    assert d in l + {d} + r;
    forall y | y in l ensures cmp(y, x) < 0 { Between(cmp, y, d, x); }
    forall y | y in r ensures cmp(x, y) < 0 { Between(cmp, x, d, y); }
  }

  /** What insert and replace promise about a set of elements. */
  ghost function SetInsert<T>(cmp: (T, T) -> int, s: set<T>, x: T, ok: bool, overwrite: bool): (set<T>, int) {
    if Has(cmp, s, x) then (if overwrite then Without(cmp, s, x) + {x} else s, 0)
    else if ok then (s + {x}, 1)
    else (s, -ENOMEM)
  }

  /** 0 iff there was an equal element, which replace swaps for `x`; 1 iff not and memory was had, and
      then `x` is in the set as well; otherwise nothing changes. */
  lemma SetInsertMeans<T(!new)>(cmp: (T, T) -> int, s: set<T>, x: T, ok: bool, overwrite: bool)
    ensures var (r, code) := SetInsert(cmp, s, x, ok, overwrite); var stored := exists y :: y in s && cmp(y, x) == 0;
      && (code == 0 <==> stored) && (code == 1 <==> !stored && ok) && (code == -ENOMEM <==> !stored && !ok)
      && (forall y :: y in r <==>
            if overwrite && code >= 0 then y == x || (y in s && cmp(y, x) != 0)
            else y in s || (y == x && code == 1))
  {
  }

  lemma SetInsertLow<T(!new)>(cmp: (T, T) -> int, l: set<T>, d: T, r: set<T>, x: T, ok: bool, overwrite: bool)
    requires TotalPreorder(cmp) && Cut(cmp, l, d, r) && cmp(d, x) > 0
    ensures var s := SetInsert(cmp, l, x, ok, overwrite);
      && SetInsert(cmp, l + {d} + r, x, ok, overwrite) == (s.0 + {d} + r, s.1)
      && Cut(cmp, s.0, d, r)
  {
    LookLow(cmp, l, d, r, x);
    var s, w := SetInsert(cmp, l, x, ok, overwrite), SetInsert(cmp, l + {d} + r, x, ok, overwrite);
    assert w.0 == s.0 + {d} + r;
  }

  lemma SetInsertHigh<T(!new)>(cmp: (T, T) -> int, l: set<T>, d: T, r: set<T>, x: T, ok: bool, overwrite: bool)
    requires TotalPreorder(cmp) && Cut(cmp, l, d, r) && cmp(d, x) < 0
    ensures var s := SetInsert(cmp, r, x, ok, overwrite);
      && SetInsert(cmp, l + {d} + r, x, ok, overwrite) == (l + {d} + s.0, s.1)
      && Cut(cmp, l, d, s.0)
  {
    LookHigh(cmp, l, d, r, x);
    var s, w := SetInsert(cmp, r, x, ok, overwrite), SetInsert(cmp, l + {d} + r, x, ok, overwrite);
    assert w.0 == l + {d} + s.0;
  }

  /** Insert and replace: order kept, exactly the new element added (replace swaps it for an
      equal one, insert leaves that one), and nothing touched when `malloc` fails. */
  lemma {:induction false} InsertMeetsSet<T(!new)>(cmp: (T, T) -> int, t: Tree<T>, x: T, ok: bool, overwrite: bool)
    requires TotalPreorder(cmp) && Valid(cmp, t)
    ensures var r := InsertLoop(cmp, t, x, ok, overwrite);
      && Valid(cmp, r.tree)
      && (Contents(r.tree), r.code) == SetInsert(cmp, Contents(t), x, ok, overwrite)
      && (r.code < 0 || (r.code == 0 && !overwrite) ==> r.tree == t)
      && (r.code <= 0 ==> !r.taller)
    decreases t
  {
    if t.Leaf? {
      assert Contents(Node(Leaf, x, 0, Leaf)) == {x} == Contents(t) + {x};
    } else if cmp(t.data, x) > 0 {
      InsertMeetsSet(cmp, t.left, x, ok, overwrite);
      SetInsertLow(cmp, Contents(t.left), t.data, Contents(t.right), x, ok, overwrite);
      var s := InsertLoop(cmp, t.left, x, ok, overwrite);
      FixAfterLeftInsertKeeps(cmp, t.(left := s.tree), s.taller);
    } else if cmp(t.data, x) < 0 {
      InsertMeetsSet(cmp, t.right, x, ok, overwrite);
      SetInsertHigh(cmp, Contents(t.left), t.data, Contents(t.right), x, ok, overwrite);
      var s := InsertLoop(cmp, t.right, x, ok, overwrite);
      FixAfterRightInsertKeeps(cmp, t.(right := s.tree), s.taller);
    } else {
      LookHere(cmp, Contents(t.left), t.data, Contents(t.right), x);
      var l, r := Contents(t.left), Contents(t.right);
      assert Contents(t.(data := x)) == l + {x} + r == (l + r) + {x};
    }
  }

  /** The predecessor mode takes out the greatest element. */
  lemma {:induction false} TakeMaxTakesGreatest<T(!new)>(cmp: (T, T) -> int, t: Tree<T>)
    requires TotalPreorder(cmp) && Valid(cmp, t) && t.Node?
    ensures var r := TakeMax(t);
      && Valid(cmp, r.tree) && AllBelow(cmp, Contents(r.tree), r.data)
      && Contents(t) == Contents(r.tree) + {r.data} && r.data !in Contents(r.tree)
    decreases t
  {
    if t.right.Node? {
      TakeMaxTakesGreatest(cmp, t.right);
      var s := TakeMax(t.right);
      assert cmp(t.data, s.data) < 0;
      forall y | y in Contents(t.left) ensures cmp(y, s.data) < 0 { Between(cmp, y, t.data, s.data); }
      FixAfterRightDeleteKeeps(cmp, t.(right := s.tree), s.shorter);
    }
  }

  /** Delete: order kept, exactly the element equal to the target removed, and the result says
      whether there was one; a miss leaves the tree as it was. */
  lemma {:induction false} DeleteMeetsSet<T(!new)>(cmp: (T, T) -> int, t: Tree<T>, x: T)
    requires TotalPreorder(cmp) && Valid(cmp, t) && t.Node?
    ensures var r := DeleteLoop(cmp, t, x);
      && Valid(cmp, r.tree)
      && Contents(r.tree) == Without(cmp, Contents(t), x)
      && r.code == (if Has(cmp, Contents(t), x) then 1 else 0)
      && (r.code == 0 ==> r.tree == t && !r.shorter)
    decreases t
  {
    if cmp(t.data, x) > 0 {
      LookLow(cmp, Contents(t.left), t.data, Contents(t.right), x);
      if t.left.Node? {
        DeleteMeetsSet(cmp, t.left, x);
        var s := DeleteLoop(cmp, t.left, x);
        FixAfterLeftDeleteKeeps(cmp, t.(left := s.tree), s.shorter);
      }
    } else if cmp(t.data, x) < 0 {
      LookHigh(cmp, Contents(t.left), t.data, Contents(t.right), x);
      if t.right.Node? {
        DeleteMeetsSet(cmp, t.right, x);
        var s := DeleteLoop(cmp, t.right, x);
        FixAfterRightDeleteKeeps(cmp, t.(right := s.tree), s.shorter);
      }
    } else {
      LookHere(cmp, Contents(t.left), t.data, Contents(t.right), x);
      if t.left.Node? && t.right.Node? {
        TakeMaxTakesGreatest(cmp, t.left);
        var s := TakeMax(t.left);
        var u := t.(data := s.data, left := s.tree);
        assert s.data in Contents(t.left);
        assert cmp(s.data, t.data) < 0;
        forall y | y in Contents(t.right) ensures cmp(s.data, y) < 0 { Between(cmp, s.data, t.data, y); }
        FixAfterLeftDeleteKeeps(cmp, u, s.shorter);
      }
    }
  }

  // ----- searching --------------------------------------------------------------------------

  function FindLoop<T>(cmp: (T, T) -> int, t: Tree<T>, x: T): Option<T> {
    match t
    case Leaf => None
    case Node(l, d, _, r) =>
      if cmp(d, x) > 0 then FindLoop(cmp, l, x)
      else if cmp(d, x) < 0 then FindLoop(cmp, r, x)
      else Some(d)
  }

  function FindGeLoop<T>(cmp: (T, T) -> int, t: Tree<T>, x: T): Option<T> {
    match t
    case Leaf => None
    case Node(l, d, _, r) =>
      if cmp(d, x) > 0 then
        var found := FindGeLoop(cmp, l, x);
        if found.Some? then found else Some(d)
      else if cmp(d, x) < 0 then FindGeLoop(cmp, r, x)
      else Some(d)
  }

  /** Find agrees with membership, and what it returns is the stored equal of the target. */
  lemma {:induction false} FindMeetsSet<T(!new)>(cmp: (T, T) -> int, t: Tree<T>, x: T)
    requires TotalPreorder(cmp) && Ordered(cmp, t)
    ensures var r := FindLoop(cmp, t, x);
      && (r.Some? <==> Has(cmp, Contents(t), x))
      && (r.Some? ==> r.value in Contents(t) && cmp(r.value, x) == 0)
  {
    if t.Node? {
      var l, r := Contents(t.left), Contents(t.right);
      if cmp(t.data, x) > 0 {
        FindMeetsSet(cmp, t.left, x);
        LookLow(cmp, l, t.data, r, x);
      } else if cmp(t.data, x) < 0 {
        FindMeetsSet(cmp, t.right, x);
        LookHigh(cmp, l, t.data, r, x);
      }
    }
  }

  ghost predicate LeastNotBelow<T>(cmp: (T, T) -> int, s: set<T>, x: T, v: T) {
    v in s && cmp(v, x) >= 0 && forall y :: y in s && cmp(y, x) >= 0 ==> cmp(v, y) <= 0
  }

  /** Find-ge returns the least stored element not below the target, and nothing iff every
      stored element is below it. */
  lemma {:induction false} FindGeMeetsSet<T(!new)>(cmp: (T, T) -> int, t: Tree<T>, x: T)
    requires TotalPreorder(cmp) && Ordered(cmp, t)
    ensures var r := FindGeLoop(cmp, t, x);
      && (r.None? <==> AllBelow(cmp, Contents(t), x))
      && (r.Some? ==> LeastNotBelow(cmp, Contents(t), x, r.value))
  {
    if t.Node? {
      var l, d, r := Contents(t.left), t.data, Contents(t.right);
      if cmp(d, x) > 0 {
        FindGeMeetsSet(cmp, t.left, x);
        var found := FindGeLoop(cmp, t.left, x);
        if found.Some? {
          assert cmp(found.value, d) < 0;
          forall y | y in r ensures cmp(found.value, y) <= 0 { Between(cmp, found.value, d, y); }
        } else {
          assert cmp(d, d) == 0;
        }
      } else if cmp(d, x) < 0 {
        FindGeMeetsSet(cmp, t.right, x);
        forall y | y in l ensures cmp(y, x) < 0 { Between(cmp, y, d, x); }
      } else {
        forall y | y in l ensures cmp(y, x) < 0 { Between(cmp, y, d, x); }
        assert cmp(d, d) == 0;
      }
    }
  }

  // ----- size and depth ---------------------------------------------------------------------

  function Size<T>(t: Tree<T>): nat {
    match t
    case Leaf => 0
    case Node(l, _, _, r) => Size(l) + 1 + Size(r)
  }

  /** The one path that avl_tree_depth follows: left where the balance is -1, else right. */
  function PathDepth<T>(t: Tree<T>): nat {
    match t
    case Leaf => 0
    case Node(l, _, b, r) => 1 + if b == -1 then PathDepth(l) else PathDepth(r)
  }

  lemma {:induction false} PathDepthIsHeight<T>(t: Tree<T>)
    requires Balanced(t)
    ensures PathDepth(t) == Height(t)
  {
    if t.Node? {
      PathDepthIsHeight(t.left);
      PathDepthIsHeight(t.right);
    }
  }

  function Fib(n: nat): nat { if n < 2 then n else Fib(n - 1) + Fib(n - 2) }

  /** The fewest nodes a balanced tree of height h can have. */
  function FewestNodes(h: nat): nat {
    if h < 2 then h else 1 + FewestNodes(h - 1) + FewestNodes(h - 2)
  }

  lemma {:induction false} FewestNodesIsFib(h: nat)
    ensures FewestNodes(h) + 1 == Fib(h + 2)
  {
    if h >= 2 {
      FewestNodesIsFib(h - 1);
      FewestNodesIsFib(h - 2);
    }
  }

  lemma FewestNodesAbove(p: nat, q: nat)
    requires p - 1 <= q <= p + 1
    ensures FewestNodes(Above(p, q)) <= 1 + FewestNodes(p) + FewestNodes(q)
  {
    if p == q && p >= 1 { FewestNodesGrow(p - 1); }
  }

  lemma {:induction false} FewestNodesGrow(h: nat)
    ensures FewestNodes(h) <= FewestNodes(h + 1)
  {
  }

  lemma {:induction false} AtLeastFewestNodes<T>(t: Tree<T>)
    requires Balanced(t)
    ensures Size(t) >= FewestNodes(Height(t))
  {
    if t.Node? {
      AtLeastFewestNodes(t.left);
      AtLeastFewestNodes(t.right);
      FewestNodesAbove(Height(t.left), Height(t.right));
    }
  }

  /** A balanced tree of height h has at least Fib(h + 2) - 1 nodes. */
  lemma SizeAtLeastFib<T>(t: Tree<T>)
    requires Balanced(t)
    ensures Size(t) + 1 >= Fib(Height(t) + 2)
  {
    AtLeastFewestNodes(t);
    FewestNodesIsFib(Height(t));
  }

  /** An ordered tree stores no element twice, so its node count is its number of elements. */
  lemma {:induction false} SizeIsCardinality<T(!new)>(cmp: (T, T) -> int, t: Tree<T>)
    requires TotalPreorder(cmp) && Ordered(cmp, t)
    ensures Size(t) == |Contents(t)|
  {
    if t.Node? {
      SizeIsCardinality(cmp, t.left);
      SizeIsCardinality(cmp, t.right);
      var l, d, r := Contents(t.left), t.data, Contents(t.right);
      assert cmp(d, d) == 0;
      forall y | y in l ensures y !in r { assert cmp(y, d) < 0; }
      assert |l + {d} + r| == |l| + 1 + |r|;
    }
  }

  // ----- whole runs ---------------------------------------------------------------------------

  datatype Op<T> = Insert(x: T, ok: bool) | Replace(x: T, ok: bool) | Delete(x: T)

  function Apply<T>(cmp: (T, T) -> int, t: Tree<T>, op: Op<T>): (r: (Tree<T>, int))
    requires Balanced(t)
    ensures Balanced(r.0)
  {
    match op
    case Insert(x, ok) => var s := InsertLoop(cmp, t, x, ok, false); (s.tree, s.code)
    case Replace(x, ok) => var s := InsertLoop(cmp, t, x, ok, true); (s.tree, s.code)
    case Delete(x) =>
      if t.Leaf? then (t, 0) else var s := DeleteLoop(cmp, t, x); (s.tree, s.code)
  }

  ghost function SetApply<T>(cmp: (T, T) -> int, s: set<T>, op: Op<T>): (set<T>, int) {
    match op
    case Insert(x, ok) => SetInsert(cmp, s, x, ok, false)
    case Replace(x, ok) => SetInsert(cmp, s, x, ok, true)
    case Delete(x) => (Without(cmp, s, x), if Has(cmp, s, x) then 1 else 0)
  }

  /** The tree after a run from the empty tree, and the result codes it returned. */
  function Run<T>(cmp: (T, T) -> int, ops: seq<Op<T>>): (r: (Tree<T>, seq<int>))
    ensures Balanced(r.0)
  {
    if ops == [] then (Leaf, [])
    else
      var before := Run(cmp, ops[..|ops| - 1]);
      var last := Apply(cmp, before.0, ops[|ops| - 1]);
      (last.0, before.1 + [last.1])
  }

  ghost function SetRun<T>(cmp: (T, T) -> int, ops: seq<Op<T>>): (set<T>, seq<int>) {
    if ops == [] then ({}, [])
    else
      var before := SetRun(cmp, ops[..|ops| - 1]);
      var last := SetApply(cmp, before.0, ops[|ops| - 1]);
      (last.0, before.1 + [last.1])
  }

  lemma ApplyMeetsSet<T(!new)>(cmp: (T, T) -> int, t: Tree<T>, op: Op<T>)
    requires TotalPreorder(cmp) && Valid(cmp, t)
    ensures Valid(cmp, Apply(cmp, t, op).0)
    ensures (Contents(Apply(cmp, t, op).0), Apply(cmp, t, op).1) == SetApply(cmp, Contents(t), op)
  {
    match op
    case Insert(x, ok) => InsertMeetsSet(cmp, t, x, ok, false);
    case Replace(x, ok) => InsertMeetsSet(cmp, t, x, ok, true);
    case Delete(x) =>
      if t.Node? { DeleteMeetsSet(cmp, t, x); } else { assert Without(cmp, Contents(t), x) == {}; }
  }

  /** Every run of insert, replace and delete, with any allocation failures, is
      indistinguishable by contents and result codes from the same run on a mathematical set,
      and the tree it reaches is ordered and balanced, reports its true height as its depth,
      and is no deeper than its number of elements allows. */
  lemma {:induction false} RunMeetsSet<T(!new)>(cmp: (T, T) -> int, ops: seq<Op<T>>)
    requires TotalPreorder(cmp)
    ensures var (t, codes) := Run(cmp, ops);
      && Valid(cmp, t)
      && (Contents(t), codes) == SetRun(cmp, ops)
      && PathDepth(t) == Height(t)
      && Fib(PathDepth(t) + 2) <= |Contents(t)| + 1
    decreases |ops|
  {
    if ops != [] {
      RunMeetsSet(cmp, ops[..|ops| - 1]);
      ApplyMeetsSet(cmp, Run(cmp, ops[..|ops| - 1]).0, ops[|ops| - 1]);
    }
    var t := Run(cmp, ops).0;
    PathDepthIsHeight(t);
    SizeAtLeastFib(t);
    SizeIsCardinality(cmp, t);
  }
}
