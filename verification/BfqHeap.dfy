/** The active tree as linked nodes: refreshing the minima along the path to the root, the search, and
 * the insertion of a new leaf. */
module BfqHeap {
  import opened Options
  import opened BfqTree

  class Node {
    var left: Node?
    var right: Node?
    var parent: Node?
    var start: int
    var finish: int
    var minStart: int

    /** Fold one child's minimum into this node's. */
    method UpdateMin(child: Node?)
      requires child != this
      modifies `minStart
      ensures minStart == if child == null then old(minStart) else Earlier(old(minStart), child.minStart)
    {
      if child != null {
        if Gt(minStart, child.minStart) {
          minStart := child.minStart;
        }
      }
    }

    /** Recompute this node's minimum from its children. */
    method UpdateActiveNode(ghost t: Tree<Node>)
      requires Linked(t, this, parent) && Correct(t.left) && Correct(t.right)
      modifies `minStart
      ensures Correct(t)
    {
      assert allocated(Nodes(t.left)) && allocated(Nodes(t.right));
      minStart := start;
      UpdateMin(right);
      UpdateMin(left);
      assert minStart == MinStart(t);
    }
  }

  ghost function Nodes(t: Tree<Node>): set<Node> {
    match t
    case Leaf => {}
    case Fork(l, e, r) => Nodes(l) + {e.id} + Nodes(r)
  }

  /** The nodes reached from `n` form the tree `t`, hanging below `up`. */
  ghost predicate Linked(t: Tree<Node>, n: Node?, up: Node?)
    reads Nodes(t)`left, Nodes(t)`right, Nodes(t)`parent, Nodes(t)`start, Nodes(t)`finish
  {
    match t
    case Leaf => n == null
    case Fork(l, e, r) =>
      && n == e.id && e.start == n.start && e.finish == n.finish && n.parent == up
      && Linked(l, n.left, n) && Linked(r, n.right, n)
      && n !in Nodes(l) && n !in Nodes(r) && Nodes(l) !! Nodes(r)
  }

  /** Every node's stored minimum is the least start of its subtree. */
  ghost predicate Correct(t: Tree<Node>)
    reads Nodes(t)`minStart
  {
    t.Fork? ==> t.entity.id.minStart == MinStart(t) && Correct(t.left) && Correct(t.right)
  }

  /** All minima but possibly the root's are correct. */
  ghost predicate CorrectBelow(t: Tree<Node>)
    reads Nodes(t)`minStart
  {
    t.Fork? ==> Correct(t.left) && Correct(t.right)
  }

  // ---------- a tree seen from one of its nodes ----------

  datatype Path = Top | InLeft(up: Path, entity: Entity<Node>, right: Tree<Node>)
                | InRight(up: Path, left: Tree<Node>, entity: Entity<Node>)

  ghost function Plug(p: Path, t: Tree<Node>): Tree<Node> {
    match p
    case Top => t
    case InLeft(up, e, r) => Plug(up, Fork(t, e, r))
    case InRight(up, l, e) => Plug(up, Fork(l, e, t))
  }

  ghost function UpNode(p: Path): Node? {
    if p.Top? then null else p.entity.id
  }

  ghost function PathNodes(p: Path): set<Node> {
    match p
    case Top => {}
    case InLeft(up, e, r) => PathNodes(up) + {e.id} + Nodes(r)
    case InRight(up, l, e) => PathNodes(up) + {e.id} + Nodes(l)
  }

  /** Off the path, only the siblings' own minima may be wrong. */
  ghost predicate SiblingsBelow(p: Path)
    reads PathNodes(p)`minStart
  {
    match p
    case Top => true
    case InLeft(up, e, r) => CorrectBelow(r) && SiblingsBelow(up)
    case InRight(up, l, e) => CorrectBelow(l) && SiblingsBelow(up)
  }

  ghost function RootOf(t: Tree<Node>): Node? {
    if t.Leaf? then null else t.entity.id
  }

  lemma {:induction false} Focus(p: Path, t: Tree<Node>)
    requires Linked(Plug(p, t), RootOf(Plug(p, t)), null)
    ensures Linked(t, RootOf(t), UpNode(p))
    ensures Nodes(t) !! PathNodes(p)
  {
    match p
    case Top =>
    case InLeft(up, e, r) => Focus(up, Fork(t, e, r));
    case InRight(up, l, e) => Focus(up, Fork(l, e, t));
  }

  lemma {:induction false} PlugNodes(p: Path, t: Tree<Node>)
    ensures Nodes(Plug(p, t)) == PathNodes(p) + Nodes(t)
  {
    match p
    case Top =>
    case InLeft(up, e, r) => PlugNodes(up, Fork(t, e, r));
    case InRight(up, l, e) => PlugNodes(up, Fork(l, e, t));
  }

  // ---------- refreshing the path ----------

  lemma LeafIsCorrect(t: Tree<Node>)
    requires t.Leaf?
    ensures Correct(t)
  {
  }

  ghost function Sibling(p: Path): Tree<Node>
    requires !p.Top?
  {
    if p.InLeft? then p.right else p.left
  }

  ghost function Rise(p: Path, t: Tree<Node>): Tree<Node>
    requires !p.Top?
  {
    if p.InLeft? then Fork(t, p.entity, p.right) else Fork(p.left, p.entity, t)
  }

  /** What linking says about a node, its parent and its sibling. */
  lemma Around(p: Path, t: Tree<Node>)
    requires Linked(Plug(p, t), RootOf(Plug(p, t)), null) && !p.Top? && t.Fork?
    ensures var up := p.entity.id;
            && Linked(Sibling(p), RootOf(Sibling(p)), up) && Linked(t, RootOf(t), up)
            && (if p.InLeft? then up.left == RootOf(t) && up.right == RootOf(Sibling(p))
                else up.right == RootOf(t) && up.left == RootOf(Sibling(p)))
    ensures Nodes(t) !! Nodes(Sibling(p)) && Nodes(t) !! PathNodes(p.up) && Nodes(Sibling(p)) !! PathNodes(p.up)
    ensures RootOf(t) in Nodes(t) && RootOf(t) != RootOf(Sibling(p))
    ensures Sibling(p).Fork? ==> RootOf(Sibling(p)) in Nodes(Sibling(p))
  {
    Focus(p, t);
    Focus(p.up, Rise(p, t));
  }

  /** The sibling is refreshed, if there is one; a left child without sibling is refreshed again. */
  method UpdateSibling(node: Node, up: Node, ghost p: Path, ghost t: Tree<Node>)
    requires Linked(Plug(p, t), RootOf(Plug(p, t)), null)
    requires !p.Top? && t.Fork? && node == RootOf(t) && up == UpNode(p)
    requires Correct(t) && SiblingsBelow(p)
    modifies PathNodes(p)`minStart, Nodes(t)`minStart
    ensures Correct(t) && SiblingsBelow(p.up) && Correct(Sibling(p))
  {
    Around(p, t);
    ghost var sib := Sibling(p);
    assert CorrectBelow(sib) && SiblingsBelow(p.up) && CorrectBelow(t);
    assert Nodes(sib) <= PathNodes(p);
    assert allocated(Nodes(t)) && allocated(Nodes(sib)) && allocated(PathNodes(p.up));
    hide Linked, MinStart, SiblingsBelow, PathNodes, Plug;
    if node == up.left && up.right != null {
      assert up.right == RootOf(sib);
      up.right.UpdateActiveNode(sib);
    } else if up.left != null {
      up.left.UpdateActiveNode(if p.InLeft? then t else sib);
      if p.InLeft? {
        LeafIsCorrect(sib);
      }
    } else {
      LeafIsCorrect(sib);
    }
  }

  /** From the deepest changed node up, every minimum is put right. */
  method UpdateActiveTree(deepest: Node, ghost p: Path, ghost t: Tree<Node>)
    requires Linked(Plug(p, t), RootOf(Plug(p, t)), null)
    requires t.Fork? && deepest == RootOf(t) && CorrectBelow(t) && SiblingsBelow(p)
    modifies Nodes(Plug(p, t))`minStart
    ensures Correct(Plug(p, t))
  {
    var node := deepest;
    ghost var q, s := p, t;
    ghost var all := Plug(p, t);
    while true
      invariant Plug(q, s) == all && Linked(all, RootOf(all), null)
      invariant s.Fork? && node == RootOf(s) && CorrectBelow(s) && SiblingsBelow(q)
      decreases q
    {
      Focus(q, s);
      PlugNodes(q, s);
      assert node.parent == UpNode(q);
      assert allocated(Nodes(all)) && allocated(Nodes(s)) && allocated(PathNodes(q));
      hide Linked, MinStart, SiblingsBelow, PathNodes;
      node.UpdateActiveNode(s);
      var up := node.parent;
      if up == null {
        return;
      }
      UpdateSibling(node, up, q, s);
      s, q := Rise(q, s), q.up;
      node := up;
    }
  }

  // ---------- linking a new leaf ----------

  /** The path hangs together from the root down to the pointer `n` that its hole is filled with. */
  ghost predicate PathLinked(p: Path, n: Node?, root: Node?)
    reads PathNodes(p)`left, PathNodes(p)`right, PathNodes(p)`parent, PathNodes(p)`start, PathNodes(p)`finish
    decreases p, 0
  {
    match p
    case Top => root == n
    case InLeft(up, e, r) => e.id.left == n && Linked(r, e.id.right, e.id) && StepLinked(up, e, r, root)
    case InRight(up, l, e) => e.id.right == n && Linked(l, e.id.left, e.id) && StepLinked(up, e, l, root)
  }

  ghost predicate StepLinked(up: Path, e: Entity<Node>, sib: Tree<Node>, root: Node?)
    reads PathNodes(up)`left, PathNodes(up)`right, PathNodes(up)`parent, PathNodes(up)`start, PathNodes(up)`finish
    reads e.id`parent, e.id`start, e.id`finish
    decreases up, 1
  {
    && e.start == e.id.start && e.finish == e.id.finish && e.id.parent == UpNode(up)
    && e.id !in Nodes(sib) && e.id !in PathNodes(up) && Nodes(sib) !! PathNodes(up)
    && PathLinked(up, e.id, root)
  }

  lemma {:induction false} Unplug(p: Path, t: Tree<Node>, root: Node?)
    requires Linked(Plug(p, t), root, null)
    ensures PathLinked(p, RootOf(t), root)
  {
    Focus(p, t);
    match p
    case Top =>
    case InLeft(up, e, r) =>
      Focus(up, Fork(t, e, r));
      Unplug(up, Fork(t, e, r), root);
    case InRight(up, l, e) =>
      Focus(up, Fork(l, e, t));
      Unplug(up, Fork(l, e, t), root);
  }

  lemma {:induction false} Replug(p: Path, t: Tree<Node>, root: Node?)
    requires PathLinked(p, RootOf(t), root) && Linked(t, RootOf(t), UpNode(p)) && Nodes(t) !! PathNodes(p)
    ensures Linked(Plug(p, t), root, null)
  {
    match p
    case Top =>
    case InLeft(up, e, r) => Replug(up, Fork(t, e, r), root);
    case InRight(up, l, e) => Replug(up, Fork(l, e, t), root);
  }

  lemma {:induction false} CorrectPlug(p: Path, t: Tree<Node>)
    requires Correct(Plug(p, t))
    ensures Correct(t) && SiblingsBelow(p)
  {
    hide MinStart;
    match p
    case Top =>
    case InLeft(up, e, r) => CorrectPlug(up, Fork(t, e, r));
    case InRight(up, l, e) => CorrectPlug(up, Fork(l, e, t));
  }

  ghost function Inserted(t: Tree<Node>, n: Node): Tree<Node>
    reads n
  {
    Insert(t, Entity(n.start, n.finish, n))
  }

  /** The node from which an insertion refreshes the minima. */
  ghost function StartNode(n: Node): Node
    reads n
  {
    if n.left != null then n.left else if n.right != null then n.right else n
  }

  // ---------- rebalancing ----------

  /** Off the path every minimum is right. */
  ghost predicate SiblingsCorrect(p: Path)
    reads PathNodes(p)`minStart
  {
    match p
    case Top => true
    case InLeft(up, e, r) => Correct(r) && SiblingsCorrect(up)
    case InRight(up, l, e) => Correct(l) && SiblingsCorrect(up)
  }

  lemma {:induction false} CorrectAround(p: Path, t: Tree<Node>)
    requires Correct(Plug(p, t))
    ensures SiblingsCorrect(p)
  {
    hide MinStart;
    match p
    case Top =>
    case InLeft(up, e, r) =>
      CorrectPlug(up, Fork(t, e, r));
      CorrectAround(up, Fork(t, e, r));
    case InRight(up, l, e) =>
      CorrectPlug(up, Fork(l, e, t));
      CorrectAround(up, Fork(l, e, t));
  }

  lemma {:induction false} CorrectIsBelow(p: Path)
    requires SiblingsCorrect(p)
    ensures SiblingsBelow(p)
  {
    match p
    case Top =>
    case InLeft(up, e, r) => CorrectIsBelow(up);
    case InRight(up, l, e) => CorrectIsBelow(up);
  }

  /** A single rotation above the place that the path leads to, where the path goes twice the same way. */
  ghost function RotateOnce(p: Path): Path {
    match p
    case InLeft(InLeft(up, g, gr), e, er) => InLeft(up, e, Fork(er, g, gr))
    case InRight(InRight(up, gl, g), el, e) => InRight(up, Fork(gl, g, el), e)
    case _ => p
  }

  /** A double rotation, where the path goes one way and then back, and one step further. */
  ghost function RotateTwice(p: Path): Path {
    match p
    case InLeft(InRight(InLeft(up, g, gr), el, e), n, nr) => InRight(InLeft(up, n, Fork(nr, g, gr)), el, e)
    case InRight(InRight(InLeft(up, g, gr), el, e), nl, n) => InLeft(InRight(up, Fork(el, e, nl), n), g, gr)
    case InRight(InLeft(InRight(up, gl, g), e, er), nl, n) => InLeft(InRight(up, Fork(gl, g, nl), n), e, er)
    case InLeft(InLeft(InRight(up, gl, g), e, er), n, nr) => InRight(InLeft(up, n, Fork(nr, e, er)), gl, g)
    case _ => p
  }

  /** Either of them, any number of steps further up. */
  ghost function RotateAt(p: Path, n: nat, twice: bool): Path {
    if n == 0 then if twice then RotateTwice(p) else RotateOnce(p)
    else
      match p
      case Top => p
      case InLeft(up, e, r) => InLeft(RotateAt(up, n - 1, twice), e, r)
      case InRight(up, l, e) => InRight(RotateAt(up, n - 1, twice), l, e)
  }

  lemma OuterCorrect(p: Path)
    requires SiblingsCorrect(p) && !p.Top?
    ensures SiblingsCorrect(p.up) && SiblingsBelow(p.up) && Correct(Sibling(p)) && CorrectBelow(Sibling(p))
  {
    CorrectIsBelow(p.up);
  }

  lemma RotateSiblings(p: Path, twice: bool)
    requires SiblingsCorrect(p)
    ensures SiblingsBelow(if twice then RotateTwice(p) else RotateOnce(p))
  {
    CorrectIsBelow(p);
    if !p.Top? {
      OuterCorrect(p);
      if !p.up.Top? {
        OuterCorrect(p.up);
        if !p.up.up.Top? {
          OuterCorrect(p.up.up);
        }
      }
    }
    hide Correct, SiblingsCorrect;
    assert forall l: Tree<Node>, e: Entity<Node>, r: Tree<Node> ::
        CorrectBelow(Fork(l, e, r)) <==> Correct(l) && Correct(r);
  }

  /** The rotations of a rebalanced insertion leave minima wrong only on the path and its siblings. */
  lemma {:induction false} RotatedSiblings(p: Path, n: nat, twice: bool)
    requires SiblingsCorrect(p)
    ensures SiblingsBelow(RotateAt(p, n, twice))
    decreases n
  {
    if n == 0 {
      RotateSiblings(p, twice);
    } else if !p.Top? {
      OuterCorrect(p);
      RotatedSiblings(p.up, n - 1, twice);
    }
  }

  lemma {:induction false} SameOrder(p: Path, a: Tree<Node>, b: Tree<Node>)
    requires InOrder(a) == InOrder(b)
    ensures InOrder(Plug(p, a)) == InOrder(Plug(p, b))
  {
    match p
    case Top =>
    case InLeft(up, e, r) => SameOrder(up, Fork(a, e, r), Fork(b, e, r));
    case InRight(up, l, e) => SameOrder(up, Fork(l, e, a), Fork(l, e, b));
  }

  lemma TurnOrder(a: Tree<Node>, e: Entity<Node>, b: Tree<Node>, g: Entity<Node>, c: Tree<Node>)
    ensures InOrder(Fork(Fork(a, e, b), g, c)) == InOrder(Fork(a, e, Fork(b, g, c)))
  {
    var i, j, k := InOrder(a), InOrder(b), InOrder(c);
    assert InOrder(Fork(a, e, b)) == i + [e] + j && InOrder(Fork(b, g, c)) == j + [g] + k;
    assert (i + [e] + j) + [g] + k == i + [e] + (j + [g] + k);
  }

  lemma OnceOrder(p: Path, t: Tree<Node>)
    ensures InOrder(Plug(RotateOnce(p), t)) == InOrder(Plug(p, t))
  {
    match p
    case InLeft(InLeft(up, g, gr), e, er) =>
      TurnOrder(t, e, er, g, gr);
      SameOrder(up, Fork(Fork(t, e, er), g, gr), Fork(t, e, Fork(er, g, gr)));
    case InRight(InRight(up, gl, g), el, e) =>
      TurnOrder(gl, g, el, e, t);
      SameOrder(up, Fork(Fork(gl, g, el), e, t), Fork(gl, g, Fork(el, e, t)));
    case _ =>
  }

  /** Four subtrees and three entities, before and after a double rotation. */
  lemma DoubleTurnOrder(a: Tree<Node>, e: Entity<Node>, b: Tree<Node>, n: Entity<Node>, c: Tree<Node>,
                        g: Entity<Node>, d: Tree<Node>)
    ensures var t := InOrder(Fork(Fork(a, e, b), n, Fork(c, g, d)));
            && InOrder(Fork(Fork(a, e, Fork(b, n, c)), g, d)) == t
            && InOrder(Fork(a, e, Fork(Fork(b, n, c), g, d))) == t
  {
    TurnOrder(a, e, b, n, c);
    TurnOrder(Fork(a, e, b), n, c, g, d);
    SameOrder(InLeft(Top, g, d), Fork(a, e, Fork(b, n, c)), Fork(Fork(a, e, b), n, c));
    TurnOrder(a, e, Fork(b, n, c), g, d);
  }

  /** A double rotation around the new leaf `n` itself, from either side, makes it the parent of `e` and `g`;
   * the refresh then starts at its left child. The entities stay in order. */
  lemma RotatedLeaf(up: Path, l: Tree<Node>, r: Tree<Node>, e: Entity<Node>, g: Entity<Node>, n: Entity<Node>)
    requires SiblingsCorrect(up) && Correct(l) && Correct(r)
    ensures SiblingsBelow(InLeft(up, n, Fork(Leaf, g, r))) && CorrectBelow(Fork(l, e, Leaf))
    ensures var whole := Plug(InLeft(up, n, Fork(Leaf, g, r)), Fork(l, e, Leaf));
            && whole == Plug(up, Fork(Fork(l, e, Leaf), n, Fork(Leaf, g, r)))
            && InOrder(whole) == InOrder(Plug(up, Fork(Fork(l, e, Fork(Leaf, n, Leaf)), g, r)))
            && InOrder(whole) == InOrder(Plug(up, Fork(l, e, Fork(Fork(Leaf, n, Leaf), g, r))))
  {
    CorrectIsBelow(up);
    DoubleTurnOrder(l, e, Leaf, n, Leaf, g, r);
    SameOrder(up, Fork(Fork(l, e, Leaf), n, Fork(Leaf, g, r)), Fork(Fork(l, e, Fork(Leaf, n, Leaf)), g, r));
    SameOrder(up, Fork(Fork(l, e, Leaf), n, Fork(Leaf, g, r)), Fork(l, e, Fork(Fork(Leaf, n, Leaf), g, r)));
  }

  lemma TwiceOrder(p: Path, t: Tree<Node>)
    ensures InOrder(Plug(RotateTwice(p), t)) == InOrder(Plug(p, t))
  {
    match p
    case InLeft(InRight(InLeft(up, g, gr), el, e), n, nr) =>
      assert Plug(p, t) == Plug(p.up, Fork(t, n, nr));
      DoubleTurnOrder(el, e, t, n, nr, g, gr);
      SameOrder(up, Fork(Fork(el, e, Fork(t, n, nr)), g, gr), Fork(Fork(el, e, t), n, Fork(nr, g, gr)));
    case InRight(InRight(InLeft(up, g, gr), el, e), nl, n) =>
      assert Plug(p, t) == Plug(p.up, Fork(nl, n, t));
      DoubleTurnOrder(el, e, nl, n, t, g, gr);
      SameOrder(up, Fork(Fork(el, e, Fork(nl, n, t)), g, gr), Fork(Fork(el, e, nl), n, Fork(t, g, gr)));
    case InRight(InLeft(InRight(up, gl, g), e, er), nl, n) =>
      assert Plug(p, t) == Plug(p.up, Fork(nl, n, t));
      DoubleTurnOrder(gl, g, nl, n, t, e, er);
      SameOrder(up, Fork(gl, g, Fork(Fork(nl, n, t), e, er)), Fork(Fork(gl, g, nl), n, Fork(t, e, er)));
    case InLeft(InLeft(InRight(up, gl, g), e, er), n, nr) =>
      assert Plug(p, t) == Plug(p.up, Fork(t, n, nr));
      DoubleTurnOrder(gl, g, t, n, nr, e, er);
      SameOrder(up, Fork(gl, g, Fork(Fork(t, n, nr), e, er)), Fork(Fork(gl, g, t), n, Fork(nr, e, er)));
    case _ =>
  }

  /** They keep the entities in order. */
  lemma {:induction false} RotatedOrder(p: Path, n: nat, twice: bool, t: Tree<Node>)
    ensures InOrder(Plug(RotateAt(p, n, twice), t)) == InOrder(Plug(p, t))
    decreases n
  {
    if n == 0 {
      OnceOrder(p, t);
      TwiceOrder(p, t);
    } else {
      match p
      case Top =>
      case InLeft(up, e, r) => RotatedOrder(up, n - 1, twice, Fork(t, e, r));
      case InRight(up, l, e) => RotatedOrder(up, n - 1, twice, Fork(l, e, t));
    }
  }

  /** A new leaf at the end of path `p`, and then any rotation above it: the old entities and the new one in
   * order, and minima wrong only where the refresh looks. */
  lemma RebalancedReady(t: Tree<Node>, p: Path, leaf: Tree<Node>, n: nat, twice: bool)
    requires Correct(t) && Plug(p, Leaf) == t
    ensures SiblingsBelow(RotateAt(p, n, twice))
    ensures InOrder(Plug(RotateAt(p, n, twice), leaf)) == InOrder(Plug(p, leaf))
  {
    CorrectAround(p, Leaf);
    RotatedSiblings(p, n, twice);
    RotatedOrder(p, n, twice, leaf);
  }

  ghost function Result(n: Node?): Option<Entity<Node>>
    reads n
  {
    if n == null then None else (var m: Node := n; Some(Entity(m.start, m.finish, m)))
  }

  class ServiceTree {
    var root: Node?
    var vtime: int

    /** Make `entity` the leaf at the end of path `p`. */
    method Link(entity: Node, up: Node?, onLeft: bool, ghost p: Path)
      requires PathLinked(p, null, root) && up == UpNode(p) && (up != null ==> onLeft == p.InLeft?)
      requires entity !in PathNodes(p)
      modifies `root, PathNodes(p)`left, PathNodes(p)`right, entity`left, entity`right, entity`parent
      ensures PathLinked(p, entity, root)
      ensures entity.left == null && entity.right == null && entity.parent == up
    {
      entity.parent := up;
      entity.left := null;
      entity.right := null;
      if up == null {
        root := entity;
      } else if onLeft {
        up.left := entity;
      } else {
        up.right := entity;
      }
    }

    /** Walk down past every entity, left of those that finish later and right of the others, and link
     * the entity there. */
    method InsertEntity(entity: Node, ghost t: Tree<Node>) returns (ghost p: Path)
      requires Linked(t, root, null) && entity !in Nodes(t)
      modifies `root, Nodes(t)`left, Nodes(t)`right, entity`left, entity`right, entity`parent
      ensures var leaf := Fork(Leaf, Entity(entity.start, entity.finish, entity), Leaf);
              && Plug(p, leaf) == Insert(t, leaf.entity) && Plug(p, Leaf) == t
              && Linked(Plug(p, leaf), root, null)
    {
      var node, up, onLeft := root, null, false;
      ghost var e := Entity(entity.start, entity.finish, entity);
      ghost var s := t;
      p := Top;
      while node != null
        modifies {}
        invariant Linked(t, root, null) && Plug(p, s) == t && Plug(p, Insert(s, e)) == Insert(t, e)
        invariant node == RootOf(s) && up == UpNode(p) && (up != null ==> onLeft == p.InLeft?)
        decreases s
      {
        Focus(p, s);
        up := node;
        onLeft := Gt(node.finish, entity.finish);
        if onLeft {
          node := node.left;
          s, p := s.left, InLeft(p, s.entity, s.right);
        } else {
          node := node.right;
          s, p := s.right, InRight(p, s.left, s.entity);
        }
      }
      Unplug(p, s, root);
      PlugNodes(p, s);
      Link(entity, up, onLeft, p);
      Replug(p, Fork(Leaf, e, Leaf), root);
    }

    /** The second half of an insertion, for whatever tree `t` the first half and the rebalancing left: if
     * it holds the old entities and the new one in order, and minima are wrong only on the path from the
     * start node to the root and on siblings of that path, then all minima are right afterwards. */
    method RefreshInserted(entity: Node, ghost before: Tree<Node>, ghost t: Tree<Node>, ghost p: Path,
                           ghost sub: Tree<Node>)
      requires Linked(t, root, null) && t == Plug(p, sub) && InOrder(t) == InOrder(Inserted(before, entity))
      requires sub.Fork? && RootOf(sub) == StartNode(entity) && CorrectBelow(sub) && SiblingsBelow(p)
      modifies Nodes(t)`minStart
      ensures Linked(t, root, null) && Correct(t) && InOrder(t) == InOrder(Inserted(before, entity))
    {
      var node := entity;
      if node.left != null {
        node := node.left;
      } else if node.right != null {
        node := node.right;
      }
      assert allocated(Nodes(t));
      UpdateActiveTree(node, p, sub);
    }

    /** Insert and refresh: the tree stays linked, gains exactly the entity, and all minima are right. */
    method ActiveInsert(entity: Node, ghost t: Tree<Node>)
      requires Linked(t, root, null) && Correct(t) && entity !in Nodes(t)
      modifies `root, Nodes(t)`left, Nodes(t)`right, Nodes(t)`minStart
      modifies entity`left, entity`right, entity`parent, entity`minStart
      ensures Linked(Inserted(t, entity), root, null) && Correct(Inserted(t, entity))
    {
      assert allocated(Nodes(t));
      ghost var p := InsertEntity(entity, t);
      ghost var leaf := Fork(Leaf, Entity(entity.start, entity.finish, entity), Leaf);
      CorrectPlug(p, Leaf);
      PlugNodes(p, leaf);
      PlugNodes(p, Leaf);
      Focus(p, leaf);
      RefreshInserted(entity, t, Plug(p, leaf), p, leaf);
    }

    /** The search on the nodes, steered by the stored minima, is the search on the tree. */
    method FirstActiveEntity(v: int, ghost t: Tree<Node>, ghost base: int) returns (first: Node?)
      requires Linked(t, root, null) && Correct(t) && AllInWindow(t, base) && InWindow(base, v)
      ensures Result(first) == Search(t, v, None)
    {
      first := null;
      var node := root;
      ghost var s, up: Node? := t, null;
      while node != null
        invariant Linked(s, node, up) && Correct(s) && AllInWindow(s, base)
        invariant first != null ==> Eligible(Entity(first.start, first.finish, first), v)
        invariant Search(s, v, Result(first)) == Search(t, v, None)
        decreases s
      {
        hide InWindow, Gt, MinStart;
        up := node;
        if !Gt(node.start, v) {
          first := node;
        }
        if s.left.Fork? {
          MinTellsEligible(s.left, base, v);
        }
        if node.left != null && !Gt(node.left.minStart, v) {
          node, s := node.left, s.left;
        } else if first != null {
          return;
        } else {
          node, s := node.right, s.right;
        }
      }
    }

    method CalcVtimeJump(ghost t: Tree<Node>) returns (v: int)
      requires Linked(t, root, null) && Correct(t) && root != null
      ensures v == VtimeJump(t, vtime)
    {
      v := if Gt(root.minStart, vtime) then root.minStart else vtime;
    }

    /** The next entity to serve: there is one exactly when the tree is not empty, and it is eligible at
     * the time jumped to. The jump is stored only if nothing is in service and the time did not wrap. */
    method LookupNextEntity(inService: bool, ghost t: Tree<Node>, ghost base: int) returns (next: Node?)
      requires Linked(t, root, null) && Correct(t) && AllInWindow(t, base) && InWindow(base, vtime)
      modifies `vtime
      ensures next == null <==> t.Leaf?
      ensures t.Fork? ==>
                var v := VtimeJump(t, old(vtime));
                && Result(next) == Search(t, v, None) && !Gt(next.start, v)
                && vtime == if inService then old(vtime) else StoredTime(t, old(vtime))
      ensures t.Leaf? ==> vtime == old(vtime)
    {
      if root == null {
        return null;
      }
      assert allocated(Nodes(t));
      var v := CalcVtimeJump(t);
      JumpYieldsEntity(t, vtime, base);
      MinInWindow(t, base);
      if !inService {
        if v > vtime {
          vtime := v;
        }
      }
      next := FirstActiveEntity(v, t, base);
    }
  }
}
