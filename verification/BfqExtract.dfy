/** Taking a node out of the active tree: which place loses a node, from where the minima are refreshed,
 * and why that is enough, also after the rotations that rebalance a removal. */
module BfqExtract {
  import opened Options
  import Seqs
  import opened BfqTree
  import opened BfqHeap

  // ---------- the place that loses a node ----------

  /** A path, and the subtree that moved up to its end. */
  datatype Place = Place(path: Path, tree: Tree<Node>) {
    ghost function Whole(): Tree<Node> { Plug(path, tree) }

    /** The subtree at which the refresh starts: what moved up, or the parent of the empty place. */
    ghost function Start(): Place {
      if tree.Fork? then this
      else
        match path
        case Top => this
        case InLeft(up, e, r) => Place(up, Fork(Leaf, e, r))
        case InRight(up, l, e) => Place(up, Fork(l, e, Leaf))
    }
  }

  /** The leftmost entity. */
  ghost function First(t: Tree<Node>): Entity<Node>
    requires t.Fork?
  {
    if t.left.Leaf? then t.entity else First(t.left)
  }

  /** The place that the leftmost node of `t` leaves, where `t` hangs at the end of `p`. */
  ghost function FirstPlace(p: Path, t: Tree<Node>): Place
    requires t.Fork?
    decreases t
  {
    if t.left.Leaf? then Place(p, t.right) else FirstPlace(InLeft(p, t.entity, t.right), t.left)
  }

  /** The place that loses a node when the root of `Fork(l, e, r)`, at the end of `p`, is taken out: its
   * own if it lacks a child, otherwise that of the next entity in order, which takes over. */
  ghost function Vacated(p: Path, l: Tree<Node>, r: Tree<Node>): Place {
    if r.Leaf? then Place(p, l)
    else if l.Leaf? then Place(p, r)
    else FirstPlace(InRight(p, l, First(r)), r)
  }

  // ---------- the order ----------

  ghost function WithoutFirst(t: Tree<Node>): Tree<Node>
    requires t.Fork?
  {
    if t.left.Leaf? then t.right else Fork(WithoutFirst(t.left), t.entity, t.right)
  }

  lemma {:induction false} FirstPlaceWhole(p: Path, t: Tree<Node>)
    requires t.Fork?
    ensures FirstPlace(p, t).Whole() == Plug(p, WithoutFirst(t))
    decreases t
  {
    if t.left.Fork? {
      FirstPlaceWhole(InLeft(p, t.entity, t.right), t.left);
    }
  }

  lemma {:induction false} FirstOrder(t: Tree<Node>)
    requires t.Fork?
    ensures InOrder(t) == [First(t)] + InOrder(WithoutFirst(t))
  {
    if t.left.Fork? {
      FirstOrder(t.left);
      var a, b := InOrder(WithoutFirst(t.left)), InOrder(t.right);
      assert [First(t)] + a + [t.entity] + b == [First(t)] + (a + [t.entity] + b);
    }
  }

  ghost function Before(p: Path): seq<Entity<Node>> {
    match p
    case Top => []
    case InLeft(up, e, r) => Before(up)
    case InRight(up, l, e) => Before(up) + (InOrder(l) + [e])
  }

  ghost function After(p: Path): seq<Entity<Node>> {
    match p
    case Top => []
    case InLeft(up, e, r) => ([e] + InOrder(r)) + After(up)
    case InRight(up, l, e) => After(up)
  }

  lemma {:induction false} PlugOrder(p: Path, t: Tree<Node>)
    ensures InOrder(Plug(p, t)) == Before(p) + InOrder(t) + After(p)
  {
    match p
    case Top =>
      assert [] + InOrder(t) + [] == InOrder(t);
    case InLeft(up, e, r) =>
      PlugOrder(up, Fork(t, e, r));
      Seqs.Assoc(InOrder(t), [e], InOrder(r));
      Seqs.Regroup(Before(up), InOrder(t), [e] + InOrder(r), After(up));
    case InRight(up, l, e) =>
      PlugOrder(up, Fork(l, e, t));
      Seqs.Assoc(Before(up), InOrder(l) + [e], InOrder(t));
  }

  /** What is left of `Fork(l, e, r)`. */
  ghost function Joined(l: Tree<Node>, r: Tree<Node>): Tree<Node> {
    if r.Leaf? then l else if l.Leaf? then r else Fork(l, First(r), WithoutFirst(r))
  }

  lemma VacatedWhole(p: Path, l: Tree<Node>, r: Tree<Node>)
    ensures Vacated(p, l, r).Whole() == Plug(p, Joined(l, r))
  {
    if l.Fork? && r.Fork? {
      FirstPlaceWhole(InRight(p, l, First(r)), r);
    }
  }

  lemma JoinedOrder(l: Tree<Node>, r: Tree<Node>)
    ensures InOrder(Joined(l, r)) == InOrder(l) + InOrder(r)
  {
    if r.Leaf? {
      assert InOrder(l) + [] == InOrder(l);
    } else if l.Leaf? {
      assert [] + InOrder(r) == InOrder(r);
    } else {
      FirstOrder(r);
      Seqs.Assoc(InOrder(l), [First(r)], InOrder(WithoutFirst(r)));
    }
  }

  /** Exactly the entity disappears from the sequence. */
  lemma VacatedOrder(p: Path, l: Tree<Node>, e: Entity<Node>, r: Tree<Node>)
    ensures InOrder(Plug(p, Fork(l, e, r))) == (Before(p) + InOrder(l)) + [e] + (InOrder(r) + After(p))
    ensures InOrder(Vacated(p, l, r).Whole()) == (Before(p) + InOrder(l)) + (InOrder(r) + After(p))
  {
    PlugOrder(p, Fork(l, e, r));
    Seqs.RegroupAround(Before(p), InOrder(l), [e], InOrder(r), After(p));
    VacatedWhole(p, l, r);
    PlugOrder(p, Joined(l, r));
    JoinedOrder(l, r);
    hide Joined, Vacated, Plug, Before, After;
    Seqs.Regroup(Before(p), InOrder(l), InOrder(r), After(p));
  }

  // ---------- the minima ----------

  lemma {:induction false} FirstPlaceCorrect(p: Path, t: Tree<Node>)
    requires t.Fork? && SiblingsCorrect(p) && Correct(t)
    ensures SiblingsCorrect(FirstPlace(p, t).path) && Correct(FirstPlace(p, t).tree)
    decreases t
  {
    if t.left.Fork? {
      FirstPlaceCorrect(InLeft(p, t.entity, t.right), t.left);
    }
  }

  /** Off the path from the place that lost a node every minimum is right. */
  lemma VacatedCorrect(p: Path, l: Tree<Node>, e: Entity<Node>, r: Tree<Node>)
    requires Correct(Plug(p, Fork(l, e, r)))
    ensures SiblingsCorrect(Vacated(p, l, r).path) && Correct(Vacated(p, l, r).tree)
  {
    CorrectPlug(p, Fork(l, e, r));
    CorrectAround(p, Fork(l, e, r));
    if l.Fork? && r.Fork? {
      FirstPlaceCorrect(InRight(p, l, First(r)), r);
    }
  }

  /** What the refresh needs: minima wrong only on the path and on siblings of it. */
  ghost predicate Ready(x: Place)
    reads PathNodes(x.path)`minStart, Nodes(x.tree)`minStart
  {
    CorrectBelow(x.tree) && SiblingsBelow(x.path)
  }

  /** Off the path every minimum is right but that of a sibling further up. */
  ghost predicate NearlyCorrect(p: Path)
    reads PathNodes(p)`minStart
  {
    SiblingsBelow(p) && (!p.Top? ==> Correct(Sibling(p)))
  }

  lemma StartReady(x: Place)
    requires NearlyCorrect(x.path) && Correct(x.tree)
    ensures Ready(x.Start()) && x.Start().Whole() == x.Whole()
  {
  }

  // ---------- rotations after a removal ----------

  /** The sibling is rotated above the parent of the place. */
  ghost function LiftSibling(p: Path): Path {
    match p
    case InLeft(up, e, Fork(sl, s, sr)) => InLeft(InLeft(up, s, sr), e, sl)
    case InRight(up, Fork(sl, s, sr), e) => InRight(InRight(up, sl, s), sr, e)
    case _ => p
  }

  /** The near child of the sibling is rotated above both. */
  ghost function LiftNephew(p: Path): Path {
    match p
    case InLeft(up, e, Fork(Fork(a, n, b), s, sr)) => InLeft(InLeft(up, n, Fork(b, s, sr)), e, a)
    case InRight(up, Fork(sl, s, Fork(a, n, b)), e) => InRight(InRight(up, Fork(sl, s, a), n), b, e)
    case _ => p
  }

  /** Either of them, any number of steps further up. */
  ghost function LiftAt(p: Path, n: nat, nephew: bool): Path {
    if n == 0 then if nephew then LiftNephew(p) else LiftSibling(p)
    else
      match p
      case Top => p
      case InLeft(up, e, r) => InLeft(LiftAt(up, n - 1, nephew), e, r)
      case InRight(up, l, e) => InRight(LiftAt(up, n - 1, nephew), l, e)
  }

  /** Lifting a sibling leaves every minimum off the path right, so that it can be repeated. */
  lemma {:induction false} LiftedSiblings(p: Path, n: nat)
    requires SiblingsCorrect(p)
    ensures SiblingsCorrect(LiftAt(p, n, false))
    decreases n
  {
    hide MinStart;
    if n > 0 && !p.Top? {
      LiftedSiblings(p.up, n - 1);
    }
  }

  lemma NephewNear(p: Path)
    requires SiblingsCorrect(p)
    ensures NearlyCorrect(LiftNephew(p))
  {
    hide MinStart;
    CorrectIsBelow(p);
    if !p.Top? {
      OuterCorrect(p);
      var sib := Sibling(p);
      if sib.Fork? {
        assert Correct(sib.left) && Correct(sib.right);
        assert sib.left.Fork? ==> Correct(sib.left.left) && Correct(sib.left.right);
        assert sib.right.Fork? ==> Correct(sib.right.left) && Correct(sib.right.right);
      }
      match p
      case InLeft(up, e, Fork(Fork(a, n, b), s, sr)) =>
        assert SiblingsBelow(InLeft(up, n, Fork(b, s, sr))) && CorrectBelow(a);
      case InRight(up, Fork(sl, s, Fork(a, n, b)), e) =>
        assert SiblingsBelow(InRight(up, Fork(sl, s, a), n)) && CorrectBelow(b);
      case _ =>
    }
  }

  /** Lifting a nephew, which ends the rebalancing, leaves one sibling on the path to be refreshed. */
  lemma {:induction false} LiftedNephew(p: Path, n: nat)
    requires SiblingsCorrect(p)
    ensures NearlyCorrect(LiftAt(p, n, true))
    decreases n
  {
    if n == 0 {
      NephewNear(p);
    } else if !p.Top? {
      OuterCorrect(p);
      LiftedNephew(p.up, n - 1);
    }
  }

  /** Rotations keep the entities in order. */
  lemma {:induction false} LiftedOrder(p: Path, n: nat, nephew: bool, t: Tree<Node>)
    ensures InOrder(Plug(LiftAt(p, n, nephew), t)) == InOrder(Plug(p, t))
    decreases n
  {
    if n == 0 {
      LiftOrder(p, t);
    } else {
      match p
      case Top =>
      case InLeft(up, e, r) => LiftedOrder(up, n - 1, nephew, Fork(t, e, r));
      case InRight(up, l, e) => LiftedOrder(up, n - 1, nephew, Fork(l, e, t));
    }
  }

  lemma LiftOrder(p: Path, t: Tree<Node>)
    ensures InOrder(Plug(LiftSibling(p), t)) == InOrder(Plug(p, t))
    ensures InOrder(Plug(LiftNephew(p), t)) == InOrder(Plug(p, t))
  {
    match p
    case Top =>
    case InLeft(up, e, r) =>
      if r.Fork? {
        TurnOrder(t, e, r.left, r.entity, r.right);
        SameOrder(up, Fork(Fork(t, e, r.left), r.entity, r.right), Fork(t, e, r));
        if r.left.Fork? {
          DoubleTurnOrder(t, e, r.left.left, r.left.entity, r.left.right, r.entity, r.right);
          SameOrder(up, Fork(Fork(t, e, r.left.left), r.left.entity, Fork(r.left.right, r.entity, r.right)),
                    Fork(t, e, r));
        }
      }
    case InRight(up, l, e) =>
      if l.Fork? {
        TurnOrder(l.left, l.entity, l.right, e, t);
        SameOrder(up, Fork(l.left, l.entity, Fork(l.right, e, t)), Fork(l, e, t));
        if l.right.Fork? {
          DoubleTurnOrder(l.left, l.entity, l.right.left, l.right.entity, l.right.right, e, t);
          SameOrder(up, Fork(Fork(l.left, l.entity, l.right.left), l.right.entity, Fork(l.right.right, e, t)),
                    Fork(l, e, t));
        }
      }
  }

  /** The parent of the place stays its parent. */
  lemma LiftedParent(p: Path, n: nat, nephew: bool)
    ensures UpNode(LiftAt(p, n, nephew)) == UpNode(p)
  {
  }

  /** Any number of siblings lifted, one after the other. */
  ghost function Lifted(p: Path, ns: seq<nat>): Path
    decreases |ns|
  {
    if ns == [] then p else Lifted(LiftAt(p, ns[0], false), ns[1..])
  }

  lemma {:induction false} LiftedMany(p: Path, ns: seq<nat>, t: Tree<Node>)
    requires SiblingsCorrect(p)
    ensures SiblingsCorrect(Lifted(p, ns)) && UpNode(Lifted(p, ns)) == UpNode(p)
    ensures InOrder(Plug(Lifted(p, ns), t)) == InOrder(Plug(p, t))
    decreases |ns|
  {
    if ns != [] {
      LiftedSiblings(p, ns[0]);
      LiftedParent(p, ns[0], false);
      LiftedOrder(p, ns[0], false, t);
      LiftedMany(LiftAt(p, ns[0], false), ns[1..], t);
    }
  }

  /** The rotations of a removal: siblings lifted, and at the end perhaps a nephew. */
  ghost function Rebalanced(x: Place, ns: seq<nat>, nephew: Option<nat>): Place {
    var p := Lifted(x.path, ns);
    Place(if nephew.Some? then LiftAt(p, nephew.value, true) else p, x.tree)
  }

  lemma StartRoot(x: Place)
    ensures RootOf(x.Start().tree) == if x.tree.Fork? then RootOf(x.tree) else UpNode(x.path)
  {
  }

  /** After a node is taken out and the tree rebalanced, minima are wrong only on the path from the node
   * found before and on siblings of that path, and exactly the entity is gone from the sequence. */
  lemma RemovedReady(p: Path, l: Tree<Node>, e: Entity<Node>, r: Tree<Node>, ns: seq<nat>, nephew: Option<nat>)
    requires Correct(Plug(p, Fork(l, e, r)))
    ensures var y := Rebalanced(Vacated(p, l, r), ns, nephew);
            && Ready(y.Start()) && y.Start().Whole() == y.Whole()
            && RootOf(y.Start().tree) == RootOf(Vacated(p, l, r).Start().tree)
            && InOrder(y.Whole()) == (Before(p) + InOrder(l)) + (InOrder(r) + After(p))
  {
    VacatedCorrect(p, l, e, r);
    VacatedOrder(p, l, e, r);
    var x := Vacated(p, l, r);
    var y := Rebalanced(x, ns, nephew);
    hide Vacated, Correct, Plug, InOrder;
    LiftedMany(x.path, ns, x.tree);
    var q := Lifted(x.path, ns);
    if nephew.Some? {
      LiftedNephew(q, nephew.value);
      LiftedParent(q, nephew.value, true);
      LiftedOrder(q, nephew.value, true, x.tree);
    } else {
      CorrectIsNear(q);
    }
    StartReady(y);
    StartRoot(x);
    StartRoot(y);
  }

  lemma CorrectIsNear(p: Path)
    requires SiblingsCorrect(p)
    ensures NearlyCorrect(p)
  {
    CorrectIsBelow(p);
    if !p.Top? {
      OuterCorrect(p);
    }
  }

  // ---------- on the nodes ----------

  /** The next node in order below `node.right`, with its place before the removal. */
  method Next(node: Node, ghost p: Path, ghost l: Tree<Node>, ghost e: Entity<Node>, ghost r: Tree<Node>)
    returns (s: Node, ghost c: Path, ghost u: Tree<Node>)
    requires Linked(Fork(l, e, r), node, UpNode(p)) && r.Fork?
    ensures u.Fork? && u.left.Leaf? && u.entity == First(r) && s == RootOf(u)
    ensures Plug(c, u) == Plug(p, Fork(l, e, r)) && Linked(u, s, s.parent)
    ensures FirstPlace(InRight(p, l, e), r) == Place(c, u.right)
    ensures var x := FirstPlace(InRight(p, l, First(r)), r);
            && x.tree == u.right
            && (if s.parent == node then x.path == InRight(p, l, First(r)) else UpNode(x.path) == s.parent)
    ensures s != node
  {
    s := node.right;
    u := r;
    c := InRight(p, l, e);
    ghost var c' := InRight(p, l, First(r));
    while s.left != null
      invariant u.Fork? && s == RootOf(u) && Linked(u, s, s.parent) && First(u) == First(r)
      invariant Nodes(u) <= Nodes(r)
      invariant Plug(c, u) == Plug(p, Fork(l, e, r))
      invariant FirstPlace(InRight(p, l, e), r) == FirstPlace(c, u)
      invariant FirstPlace(InRight(p, l, First(r)), r) == FirstPlace(c', u)
      invariant if s.parent == node then c' == InRight(p, l, First(r)) else UpNode(c') == s.parent
      decreases u
    {
      c, c' := InLeft(c, u.entity, u.right), InLeft(c', u.entity, u.right);
      s, u := s.left, u.left;
    }
  }

  /** The deepest node that a removal can change is where the refresh has to start. */
  method FindDeepest(node: Node, ghost p: Path, ghost l: Tree<Node>, ghost e: Entity<Node>, ghost r: Tree<Node>)
    returns (deepest: Node?)
    requires Linked(Plug(p, Fork(l, e, r)), RootOf(Plug(p, Fork(l, e, r))), null) && node == e.id
    ensures deepest == RootOf(Vacated(p, l, r).Start().tree)
  {
    Focus(p, Fork(l, e, r));
    StartRoot(Vacated(p, l, r));
    if node.right == null && node.left == null {
      deepest := node.parent;
    } else if node.right == null {
      deepest := node.left;
    } else if node.left == null {
      deepest := node.right;
    } else {
      ghost var c, u;
      deepest, c, u := Next(node, p, l, e, r);
      if deepest.right != null {
        deepest := deepest.right;
      } else if deepest.parent != node {
        deepest := deepest.parent;
      }
    }
  }

  /** The second half of a removal, for whatever tree rebalancing left. */
  method RefreshExtracted(deepest: Node?, ghost y: Place)
    requires Linked(y.Whole(), RootOf(y.Whole()), null) && y.Start().Whole() == y.Whole() && Ready(y.Start())
    requires deepest == RootOf(y.Start().tree)
    modifies Nodes(y.Whole())`minStart
    ensures Correct(y.Whole())
  {
    if deepest != null {
      UpdateActiveTree(deepest, y.Start().path, y.Start().tree);
    }
  }

  // ---------- relinking, without rebalancing ----------

  /** The parent of `node` points to `child` instead. */
  method Redirect(st: ServiceTree, node: Node, child: Node?, ghost p: Path)
    requires PathLinked(p, node, st.root) && node.parent == UpNode(p) && node !in PathNodes(p)
    modifies st`root, PathNodes(p)`left, PathNodes(p)`right
    ensures PathLinked(p, child, st.root)
  {
    var up := node.parent;
    if up == null {
      st.root := child;
    } else if up.left == node {
      up.left := child;
    } else {
      up.right := child;
    }
  }

  /** A node without one child gives way to the other, the tree `t`. */
  method SpliceOut(st: ServiceTree, node: Node, child: Node?, ghost p: Path, ghost whole: Tree<Node>,
                   ghost t: Tree<Node>)
    requires Linked(Plug(p, whole), st.root, null) && whole.Fork? && node == RootOf(whole) && child == RootOf(t)
    requires (whole.left.Leaf? && t == whole.right) || (whole.right.Leaf? && t == whole.left)
    modifies st`root, PathNodes(p)`left, PathNodes(p)`right, Nodes(t)`parent
    ensures Linked(Plug(p, t), st.root, null)
  {
    Focus(p, whole);
    Unplug(p, whole, st.root);
    assert Linked(t, child, node) && Nodes(t) !! PathNodes(p) && node !in Nodes(t) && node !in PathNodes(p);
    assert allocated(Nodes(t)) && allocated(PathNodes(p));
    hide Plug, Linked, PathLinked;
    Adopt(node.parent, child, t, node);
    Redirect(st, node, child, p);
    Replug(p, t, st.root);
  }

  method Adopt(s: Node?, child: Node?, ghost t: Tree<Node>, ghost up: Node?)
    requires Linked(t, child, up)
    modifies Nodes(t)`parent
    ensures Linked(t, child, s)
  {
    if child != null {
      child.parent := s;
    }
  }

  lemma LinkedFork(l: Tree<Node>, s: Node, r: Tree<Node>)
    requires Linked(l, s.left, s) && Linked(r, s.right, s)
    requires s !in Nodes(l) && s !in Nodes(r) && Nodes(l) !! Nodes(r)
    ensures Linked(Fork(l, Entity(s.start, s.finish, s), r), s, s.parent)
  {
  }

  /** `s` gets the children and the parent of `node`. */
  method Dress(s: Node, node: Node, ghost l: Tree<Node>, ghost r: Tree<Node>)
    requires Linked(l, node.left, node) && Linked(r, node.right, node) && Nodes(l) !! Nodes(r)
    requires s != node && s !in Nodes(l) && s !in Nodes(r) && node !in Nodes(l) && node !in Nodes(r)
    modifies s`left, s`right, s`parent, Nodes(l)`parent, Nodes(r)`parent
    ensures Linked(Fork(l, Entity(s.start, s.finish, s), r), s, node.parent)
  {
    assert allocated(Nodes(l)) && allocated(Nodes(r));
    hide Linked;
    s.left, s.right, s.parent := node.left, node.right, node.parent;
    Adopt(s, s.left, l, node);
    Adopt(s, s.right, r, node);
    LinkedFork(l, s, r);
  }

  /** `s`, which is on no tree, takes the place of `node`. */
  method TakeOver(st: ServiceTree, node: Node, s: Node, ghost p: Path, ghost l: Tree<Node>, ghost e: Entity<Node>,
                  ghost r: Tree<Node>)
    requires Linked(Plug(p, Fork(l, e, r)), st.root, null) && node == e.id && s !in Nodes(Plug(p, Fork(l, e, r)))
    modifies st`root, PathNodes(p)`left, PathNodes(p)`right, Nodes(l)`parent, Nodes(r)`parent
    modifies s`left, s`right, s`parent
    ensures Linked(Plug(p, Fork(l, Entity(s.start, s.finish, s), r)), st.root, null)
  {
    hide Plug, PathLinked, Linked;
    AroundNode(p, l, e, r, s, st.root);
    ghost var t := Fork(l, Entity(s.start, s.finish, s), r);
    assert allocated(Nodes(t)) && allocated(PathNodes(p));
    Dress(s, node, l, r);
    Redirect(st, node, s, p);
    Replug(p, t, st.root);
  }

  lemma AroundNode(p: Path, l: Tree<Node>, e: Entity<Node>, r: Tree<Node>, s: Node, root: Node?)
    requires Linked(Plug(p, Fork(l, e, r)), root, null) && s !in Nodes(Plug(p, Fork(l, e, r)))
    ensures Linked(l, e.id.left, e.id) && Linked(r, e.id.right, e.id) && Nodes(l) !! Nodes(r)
    ensures e.id !in Nodes(l) && e.id !in Nodes(r) && e.id !in PathNodes(p) && e.id != s
    ensures s !in Nodes(l) && s !in Nodes(r) && s !in PathNodes(p)
    ensures Nodes(l) !! PathNodes(p) && Nodes(r) !! PathNodes(p)
    ensures PathLinked(p, e.id, root) && e.id.parent == UpNode(p)
  {
    Focus(p, Fork(l, e, r));
    Unplug(p, Fork(l, e, r), root);
    PlugNodes(p, Fork(l, e, r));
  }

  lemma {:induction false} FirstGone(t: Tree<Node>, n: Node?, up: Node?)
    requires t.Fork? && Linked(t, n, up)
    ensures First(t).id in Nodes(t) && Nodes(WithoutFirst(t)) == Nodes(t) - {First(t).id}
  {
    if t.left.Fork? {
      FirstGone(t.left, n.left, n);
    }
  }

  /** Taking the first entity `u.entity` of `r` off its place at `c` touches only nodes of the tree, and leaves
   * all but that one. */
  lemma FirstTakenOff(p: Path, l: Tree<Node>, e: Entity<Node>, r: Tree<Node>, c: Path, u: Tree<Node>, root: Node?)
    requires Linked(Plug(p, Fork(l, e, r)), root, null) && r.Fork? && u.Fork? && u.entity == First(r)
    requires Plug(c, u) == Plug(p, Fork(l, e, r)) && FirstPlace(InRight(p, l, e), r) == Place(c, u.right)
    ensures Plug(c, u.right) == Plug(p, Fork(l, e, WithoutFirst(r)))
    ensures PathNodes(c) + Nodes(u.right) + PathNodes(p) + Nodes(l) + Nodes(WithoutFirst(r)) + {u.entity.id}
            <= Nodes(Plug(p, Fork(l, e, r)))
    ensures u.entity.id !in Nodes(Plug(p, Fork(l, e, WithoutFirst(r))))
  {
    hide First, WithoutFirst, FirstPlace;
    Focus(p, Fork(l, e, r));
    PlugNodes(p, Fork(l, e, r));
    FirstGone(r, e.id.right, e.id);
    FirstPlaceWhole(InRight(p, l, e), r);
    PlugNodes(p, Fork(l, e, WithoutFirst(r)));
    PlugNodes(c, u);
  }

  /** A node with two children: the next one in order leaves its place and takes over. */
  method EraseInner(st: ServiceTree, node: Node, ghost p: Path, ghost l: Tree<Node>, ghost e: Entity<Node>,
                    ghost r: Tree<Node>)
    requires Linked(Plug(p, Fork(l, e, r)), st.root, null) && node == e.id && l.Fork? && r.Fork?
    modifies st`root
    modifies Nodes(Plug(p, Fork(l, e, r)))`left, Nodes(Plug(p, Fork(l, e, r)))`right
    modifies Nodes(Plug(p, Fork(l, e, r)))`parent
    ensures Linked(Plug(p, Fork(l, First(r), WithoutFirst(r))), st.root, null)
  {
    Focus(p, Fork(l, e, r));
    assert allocated(Nodes(Plug(p, Fork(l, e, r))));
    var s;
    ghost var c, u;
    s, c, u := Next(node, p, l, e, r);
    assert First(r) == Entity(s.start, s.finish, s);
    FirstTakenOff(p, l, e, r, c, u, st.root);
    hide Plug, First, WithoutFirst, FirstPlace, Nodes, PathNodes;
    SpliceOut(st, s, s.right, c, u, u.right);
    TakeOver(st, node, s, p, l, e, WithoutFirst(r));
  }

  /** Take the node out of the links. */
  method Erase(st: ServiceTree, node: Node, ghost p: Path, ghost l: Tree<Node>, ghost e: Entity<Node>,
               ghost r: Tree<Node>)
    requires Linked(Plug(p, Fork(l, e, r)), st.root, null) && node == e.id
    modifies st`root
    modifies Nodes(Plug(p, Fork(l, e, r)))`left, Nodes(Plug(p, Fork(l, e, r)))`right
    modifies Nodes(Plug(p, Fork(l, e, r)))`parent
    ensures Linked(Vacated(p, l, r).Whole(), st.root, null)
  {
    ghost var whole := Fork(l, e, r);
    Focus(p, whole);
    PlugNodes(p, whole);
    VacatedWhole(p, l, r);
    assert node.left == RootOf(l) && node.right == RootOf(r);
    hide Plug, Linked, Vacated;
    if node.left == null {
      SpliceOut(st, node, node.right, p, whole, r);
    } else if node.right == null {
      SpliceOut(st, node, node.left, p, whole, l);
    } else {
      EraseInner(st, node, p, l, e, r);
    }
  }

  // ---------- whole runs ----------

  /** Linked, with every minimum right, and ordered by finish time. */
  ghost predicate Sound(st: ServiceTree, t: Tree<Node>, base: int)
    reads st, Nodes(t)
  {
    Linked(t, st.root, null) && Correct(t) && FinishOrdered(InOrder(t), base)
  }

  lemma RemovalSorted(a: seq<Entity<Node>>, e: Entity<Node>, b: seq<Entity<Node>>, base: int)
    requires FinishOrdered(a + [e] + b, base)
    ensures FinishOrdered(a + b, base)
  {
    hide Gt, InWindow;
    var s, r := a + [e] + b, a + b;
    forall i | 0 <= i < |r| ensures InWindow(base, r[i].finish) {
      assert r[i] == s[if i < |a| then i else i + 1];
    }
    forall i, j | 0 <= i < j < |r| ensures !Gt(r[i].finish, r[j].finish) {
      assert r[i] == s[if i < |a| then i else i + 1] && r[j] == s[if j < |a| then j else j + 1];
    }
  }

  /** Take an entity out and refresh: the tree stays linked and ordered, loses exactly the entity, and all
   * minima are right. */
  method ActiveExtract(st: ServiceTree, node: Node, ghost p: Path, ghost l: Tree<Node>, ghost e: Entity<Node>,
                       ghost r: Tree<Node>, ghost base: int) returns (ghost t: Tree<Node>)
    requires Sound(st, Plug(p, Fork(l, e, r)), base) && node == e.id
    modifies st`root
    modifies Nodes(Plug(p, Fork(l, e, r)))`left, Nodes(Plug(p, Fork(l, e, r)))`right
    modifies Nodes(Plug(p, Fork(l, e, r)))`parent, Nodes(Plug(p, Fork(l, e, r)))`minStart
    ensures Sound(st, t, base)
    ensures InOrder(Plug(p, Fork(l, e, r))) == (Before(p) + InOrder(l)) + [e] + (InOrder(r) + After(p))
    ensures InOrder(t) == (Before(p) + InOrder(l)) + (InOrder(r) + After(p))
    ensures Nodes(t) == Nodes(Plug(p, Fork(l, e, r))) - {node}
  {
    ghost var all := Plug(p, Fork(l, e, r));
    ghost var x := Vacated(p, l, r);
    t := x.Whole();
    VacatedOrder(p, l, e, r);
    RemovalSorted(Before(p) + InOrder(l), e, InOrder(r) + After(p), base);
    RemovedReady(p, l, e, r, [], None);
    VacatedNodes(p, l, e, r);
    assert Rebalanced(x, [], None) == x;
    ghost var y := x.Start();
    assert Ready(y);
    assert allocated(Nodes(all)) && allocated(PathNodes(y.path)) && allocated(Nodes(y.tree));
    hide Plug, Linked, Vacated, Correct, InOrder, FinishOrdered, Before, After, Ready, PathNodes, Nodes;
    var deepest := FindDeepest(node, p, l, e, r);
    Erase(st, node, p, l, e, r);
    RefreshExtracted(deepest, x);
  }

  lemma VacatedNodes(p: Path, l: Tree<Node>, e: Entity<Node>, r: Tree<Node>)
    requires Linked(Plug(p, Fork(l, e, r)), RootOf(Plug(p, Fork(l, e, r))), null)
    ensures Nodes(Vacated(p, l, r).Whole()) == Nodes(Plug(p, Fork(l, e, r))) - {e.id}
  {
    VacatedWhole(p, l, r);
    PlugNodes(p, Joined(l, r));
    PlugNodes(p, Fork(l, e, r));
    Focus(p, Fork(l, e, r));
    if l.Fork? && r.Fork? {
      FirstGone(r, e.id.right, e.id);
    }
  }

  lemma {:induction false} InsertNodes(t: Tree<Node>, e: Entity<Node>)
    ensures Nodes(Insert(t, e)) == Nodes(t) + {e.id}
  {
    hide Gt;
    if t.Fork? {
      InsertNodes(t.left, e);
      InsertNodes(t.right, e);
    }
  }

  /** Where a node of the tree is. */
  lemma {:induction false} Locate(p: Path, t: Tree<Node>, n: Node)
    returns (q: Path, l: Tree<Node>, e: Entity<Node>, r: Tree<Node>)
    requires n in Nodes(t)
    ensures e.id == n && Plug(q, Fork(l, e, r)) == Plug(p, t)
    decreases t
  {
    if t.entity.id == n {
      q, l, e, r := p, t.left, t.entity, t.right;
    } else if n in Nodes(t.left) {
      q, l, e, r := Locate(InLeft(p, t.entity, t.right), t.left, n);
    } else {
      q, l, e, r := Locate(InRight(p, t.left, t.entity), t.right, n);
    }
  }

  datatype Op = Put(node: Node) | Take(node: Node)

  ghost function Used(ops: seq<Op>): set<Node> {
    set o | o in ops :: o.node
  }

  /** Only absent nodes are put, and only present ones taken. */
  ghost predicate Doable(ns: set<Node>, ops: seq<Op>)
    decreases |ops|
  {
    ops == [] ||
    match ops[0]
    case Put(n) => n !in ns && Doable(ns + {n}, ops[1..])
    case Take(n) => n in ns && Doable(ns - {n}, ops[1..])
  }

  ghost function NodesAfter(ns: set<Node>, ops: seq<Op>): set<Node>
    decreases |ops|
  {
    if ops == [] then ns
    else
      match ops[0]
      case Put(n) => NodesAfter(ns + {n}, ops[1..])
      case Take(n) => NodesAfter(ns - {n}, ops[1..])
  }

  method PutNode(st: ServiceTree, n: Node, ghost t: Tree<Node>, ghost base: int) returns (ghost t': Tree<Node>)
    requires Sound(st, t, base) && n !in Nodes(t) && InWindow(base, n.finish)
    modifies st`root, Nodes(t)`left, Nodes(t)`right, Nodes(t)`minStart
    modifies n`left, n`right, n`parent, n`minStart
    ensures Sound(st, t', base) && Nodes(t') == Nodes(t) + {n}
  {
    ghost var e := Entity(n.start, n.finish, n);
    t' := Insert(t, e);
    InsertSorted(t, e, base);
    InsertNodes(t, e);
    hide Insert, Linked, Correct, FinishOrdered;
    st.ActiveInsert(n, t);
  }

  method TakeNode(st: ServiceTree, n: Node, ghost t: Tree<Node>, ghost base: int) returns (ghost t': Tree<Node>)
    requires Sound(st, t, base) && n in Nodes(t)
    modifies st`root, Nodes(t)`left, Nodes(t)`right, Nodes(t)`parent, Nodes(t)`minStart
    ensures Sound(st, t', base) && Nodes(t') == Nodes(t) - {n}
  {
    hide Linked, Correct, FinishOrdered;
    ghost var p, l, e, r := Locate(Top, t, n);
    t' := ActiveExtract(st, n, p, l, e, r, base);
  }

  /** Every run of insertions and removals keeps the tree linked and ordered, with every minimum right, and
   * holding exactly what was put and not taken. */
  method Perform(st: ServiceTree, ops: seq<Op>, ghost t0: Tree<Node>, ghost base: int) returns (ghost t: Tree<Node>)
    requires Sound(st, t0, base) && Doable(Nodes(t0), ops)
    requires forall o | o in ops :: InWindow(base, o.node.finish)
    modifies st`root
    modifies Nodes(t0)`left, Nodes(t0)`right, Nodes(t0)`parent, Nodes(t0)`minStart
    modifies Used(ops)`left, Used(ops)`right, Used(ops)`parent, Used(ops)`minStart
    ensures Sound(st, t, base) && Nodes(t) == NodesAfter(Nodes(t0), ops)
  {
    t := t0;
    hide Sound, InWindow;
    for i := 0 to |ops|
      invariant Sound(st, t, base) && Nodes(t) <= Nodes(t0) + Used(ops)
      invariant Doable(Nodes(t), ops[i..]) && NodesAfter(Nodes(t), ops[i..]) == NodesAfter(Nodes(t0), ops)
    {
      var o := ops[i];
      assert ops[i..][0] == o && ops[i..][1..] == ops[i + 1..] && o.node in Used(ops);
      match o
      case Put(n) => t := PutNode(st, n, t, base);
      case Take(n) => t := TakeNode(st, n, t, base);
    }
  }
}
