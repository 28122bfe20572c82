/** The threaded AVL tree of the OONF library: an intrusive balanced tree whose nodes also sit in
    a doubly linked ring in key order. */
module Avl {

  import opened Ring
  import opened Seqs

  function Max(a: int, b: int): int { if a < b then b else a }

  ghost function Height(n: AvlNode?): int
    reads n
  {
    if n == null then 0 else n.ht
  }

  /** The stored balance is the height difference of the children, and `ht` is one more than the higher. */
  ghost predicate Weighed(n: AvlNode)
    reads n, n.left, n.right
  {
    && n.balance == Height(n.right) - Height(n.left)
    && n.ht == 1 + Max(Height(n.left), Height(n.right))
  }

  ghost predicate Balanced(n: AvlNode)
    reads n, n.left, n.right
  {
    Weighed(n) && -1 <= n.balance <= 1
  }

  class AvlTree {
    const head: AvlNode
    const allowDups: bool
    var root: AvlNode?
    var count: int

    ghost var nodes: set<AvlNode>
    ghost var leaders: seq<AvlNode>
    ghost var ring: seq<AvlNode>
    ghost var groups: seq<seq<AvlNode>>

    constructor (allowDups: bool)
      ensures Valid() && groups == [] && ring == [] && this.allowDups == allowDups && fresh(head)
    {
      head := new AvlNode(0);
      this.allowDups := allowDups;
      root, count := null, 0;
      nodes, leaders, ring, groups := {}, [], [], [];
      new;
      head.next, head.prev := head, head;
      assert Edge(head, ring, 0);
    }

    ghost predicate Linked(n: AvlNode)
      reads this, nodes, n
    {
      && 0 <= n.lo <= n.pos < n.hi <= |leaders|
      && (if n.parent == null then n == root
          else n.parent in nodes && (n.parent.left == n || n.parent.right == n))
      && (if n.left == null then n.lo == n.pos
          else n.left in nodes && n.left.parent == n && n.left.lo == n.lo && n.left.hi == n.pos)
      && (if n.right == null then n.hi == n.pos + 1
          else n.right in nodes && n.right.parent == n && n.right.lo == n.pos + 1 && n.right.hi == n.hi)
    }

    ghost predicate Shape()
      reads this, nodes
    {
      && (if root == null then nodes == {}
          else root in nodes && root.parent == null && root.lo == 0 && root.hi == |leaders|)
      && (forall n {:trigger Linked(n)} :: n in nodes ==> Linked(n))
      && forall n :: n in nodes ==> 1 <= n.ht
    }

    /** A node, a child of it, the node above and the grandchildren are different nodes. */
    lemma Apart(node: AvlNode, child: AvlNode)
      requires Shape() && node in nodes && (child == node.left || child == node.right)
      ensures child in nodes && child != node && child.parent == node
      ensures child == node.left ==> child.lo == node.lo && child.hi == node.pos
      ensures child == node.right ==> child.lo == node.pos + 1 && child.hi == node.hi
      ensures node.parent != null ==>
                && node.parent in nodes && node.parent != node && node.parent != child
                && (node.parent.left == node || node.parent.right == node) && node.parent.left != node.parent.right
                && node.parent.left != child && node.parent.right != child
      ensures child.left != null ==> child.left in nodes && child.left != node && child.left != child && child.left != node.parent && child.left.parent == child
      ensures child.right != null ==> child.right in nodes && child.right != node && child.right != child && child.right != node.parent
      ensures node.left != null ==> node.left in nodes && node.left != node.parent && node.left != node && node.left != node.right
      ensures node.right != null ==> node.right in nodes && node.right != node.parent && node.right != node
      ensures child.left != null ==> child.left != child.right
    {
      assert Linked(node) && Linked(child);
      if node.parent != null { assert Linked(node.parent); }
      if child.left != null { assert Linked(child.left); }
      if child.right != null { assert Linked(child.right); }
    }

    /** The balance stored at `p` is the one for children of heights `l` and `r`. */
    static ghost predicate Believes(p: AvlNode, l: int, r: int)
      reads p
    {
      p.balance == r - l && -1 <= p.balance <= 1 && p.ht == 1 + Max(l, r)
    }

    /** The balance stored at `up`, if there is such a node, is right for `child` having height `h`. */
    ghost predicate Expects(up: AvlNode?, child: AvlNode, h: int)
      reads this, nodes
    {
      up != null ==>
        && up in nodes && (up.left == null || up.left in nodes) && (up.right == null || up.right in nodes)
        && (if up.left == child then up.right != child && Believes(up, h, Height(up.right))
            else up.right == child && Believes(up, Height(up.left), h))
    }

    ghost predicate Fine(m: AvlNode)
      reads this, nodes
    {
      && m in nodes && (m.left == null || m.left in nodes) && (m.right == null || m.right in nodes)
      && Balanced(m)
    }

    /** Every node other than the three given is balanced. */
    ghost predicate BalancedOutside(a: AvlNode?, b: AvlNode?, c: AvlNode?)
      reads this, nodes
    {
      forall m {:trigger Fine(m)} :: m in nodes && m != a && m != b && m != c ==> Fine(m)
    }

    ghost predicate BalancedBeyond(a: AvlNode, b: AvlNode, c: AvlNode?, d: AvlNode?)
      reads this, nodes
    {
      forall m {:trigger Fine(m)} :: m in nodes && m != a && m != b && m != c && m != d ==> Fine(m)
    }

    /** What a right rotation at `node` does to the links. */
    twostate predicate TurnedRight(node: AvlNode, top: AvlNode, inner: AvlNode?, up: AvlNode?)
      reads this, nodes
    {
      && node in nodes && top in nodes && nodes == old(nodes)
      && top.parent == up && node.parent == top
      && top.left == old(top.left) && top.right == node
      && node.left == inner && node.right == old(node.right)
      && top.lo == old(node.lo) && top.hi == old(node.hi) && node.lo == top.pos + 1 && node.hi == old(node.hi)
      && root == (if up == null then top else old(root))
      && (forall m :: m in old(nodes) && m != node && m != top ==>
            && m.lo == old(m.lo) && m.hi == old(m.hi)
            && m.left == (if m == up && old(m.left) == node then top else old(m.left))
            && m.right == (if m == up && old(m.left) != node then top else old(m.right))
            && m.parent == (if m == inner then node else old(m.parent)))
      && forall m :: m in old(nodes) ==> m.pos == old(m.pos)
    }

    twostate lemma TurnedRightKeepsShape(node: AvlNode, new top: AvlNode, new inner: AvlNode?, new up: AvlNode?)
      requires old(Shape()) && node in old(nodes)
      requires top == old(node.left) && inner == old(node.left.right) && up == old(node.parent)
      requires leaders == old(leaders) && nodes == old(nodes)
      requires TurnedRight(node, top, inner, up)
      requires forall m :: m in nodes ==> 1 <= m.ht
      ensures Shape()
    {
      assert old(Linked(node)) && old(Linked(top));
      forall m | m in nodes
        ensures Linked(m)
      {
        assert old(Linked(m));
      }
    }

    twostate lemma TurnedRightKeepsBalance(new node: AvlNode, new top: AvlNode, new inner: AvlNode?, new up: AvlNode?, x: AvlNode?)
      requires old(Shape()) && node in old(nodes) && Shape()
      requires top == old(node.left) && inner == old(node.left.right) && up == old(node.parent)
      requires old(BalancedBeyond(node, top, up, x)) && TurnedRight(node, top, inner, up)
      requires forall m :: m in nodes && m != node && m != top ==> m.balance == old(m.balance) && m.ht == old(m.ht)
      ensures BalancedBeyond(node, top, up, x)
    {
      assert old(Linked(node)) && old(Linked(top));
      forall m | m in nodes && m != node && m != top && m != up && m != x
        ensures Fine(m)
      {
        assert old(Linked(m)) && old(Fine(m)) && Linked(m);
      }
    }

    twostate lemma TurnedRightSeenAbove(node: AvlNode, new top: AvlNode, new inner: AvlNode?, new up: AvlNode?)
      requires old(Shape()) && node in old(nodes)
      requires top == old(node.left) && inner == old(node.left.right) && up == old(node.parent)
      requires TurnedRight(node, top, inner, up)
      requires forall m :: m in nodes && m != node && m != top ==> m.balance == old(m.balance) && m.ht == old(m.ht)
      ensures forall h :: old(Expects(up, node, h)) ==> Expects(up, top, h)
    {
      assert old(Linked(node)) && old(Linked(top));
      if up != null {
        assert old(Linked(up));
      }
    }

    method RelinkRight(node: AvlNode)
      requires Shape() && node in nodes && node.left != null
      modifies this`root, nodes`parent, nodes`left, nodes`right, nodes`lo, nodes`hi
      ensures TurnedRight(node, old(node.left), old(node.left.right), old(node.parent))
    {
      var left := node.left;
      var parent := node.parent;
      Apart(node, left);
      left.parent := parent;
      node.parent := left;
      if parent == null {
        root := left;
      } else if parent.left == node {
        parent.left := left;
      } else {
        parent.right := left;
      }
      node.left := left.right;
      left.right := node;
      if node.left != null {
        node.left.parent := node;
      }
      node.lo, left.hi := left.pos + 1, node.hi;
    }

    /** The arithmetic a right rotation does on the stored balances. */
    static method ReweighRight(node: AvlNode, left: AvlNode)
      requires node != left && left.right == node && node.left != left && node.right != left && left.left != node
      requires node.left != node && node.right != node && left.left != left
      requires var a, b, c := Height(left.left), Height(node.left), Height(node.right);
               left.balance == b - a && node.balance == c - (1 + Max(a, b)) && 0 <= a && 0 <= b && 0 <= c
      modifies node`balance, left`balance, node`ht, left`ht
      ensures Weighed(node) && Weighed(left) && 1 <= node.ht && 1 <= left.ht
    {
      ghost var a, b, c := Height(left.left), Height(node.left), Height(node.right);
      node.balance := node.balance + 1;
      if left.balance < 0 {
        node.balance := node.balance - left.balance;
      }
      left.balance := left.balance + 1;
      if node.balance > 0 {
        left.balance := left.balance + node.balance;
      }
      node.ht := 1 + Max(b, c);
      left.ht := 1 + Max(a, node.ht);
    }

    method RotateRight(node: AvlNode, ghost x: AvlNode?)
      requires Shape() && node in nodes && node.left != null
      requires BalancedBeyond(node, node.left, node.parent, x)
      requires Weighed(node) && Weighed(node.left)
      modifies this`root, nodes`parent, nodes`left, nodes`right, nodes`balance, nodes`lo, nodes`hi, nodes`ht
      ensures Shape()
      ensures TurnedRight(node, old(node.left), old(node.left.right), old(node.parent))
      ensures Weighed(node) && Weighed(old(node.left))
      ensures forall m :: m in nodes && m != node && m != old(node.left) ==> m.balance == old(m.balance) && m.ht == old(m.ht)
      ensures BalancedBeyond(node, old(node.left), old(node.parent), x)
      ensures forall h :: old(Expects(node.parent, node, h)) ==> Expects(old(node.parent), old(node.left), h)
    {
      var left := node.left;
      ghost var inner, up := left.right, node.parent;
      Apart(node, left);
      RelinkRight(node);
      ReweighRight(node, left);
      TurnedRightKeepsShape(node, left, inner, up);
      TurnedRightKeepsBalance(node, left, inner, up, x);
      TurnedRightSeenAbove(node, left, inner, up);
    }

    /** What a left rotation at `node` does to the links. */
    twostate predicate TurnedLeft(node: AvlNode, top: AvlNode, inner: AvlNode?, up: AvlNode?)
      reads this, nodes
    {
      && node in nodes && top in nodes && nodes == old(nodes)
      && top.parent == up && node.parent == top
      && top.right == old(top.right) && top.left == node
      && node.right == inner && node.left == old(node.left)
      && top.lo == old(node.lo) && top.hi == old(node.hi) && node.lo == old(node.lo) && node.hi == top.pos
      && root == (if up == null then top else old(root))
      && (forall m :: m in old(nodes) && m != node && m != top ==>
            && m.lo == old(m.lo) && m.hi == old(m.hi)
            && m.left == (if m == up && old(m.left) == node then top else old(m.left))
            && m.right == (if m == up && old(m.left) != node then top else old(m.right))
            && m.parent == (if m == inner then node else old(m.parent)))
      && forall m :: m in old(nodes) ==> m.pos == old(m.pos)
    }

    twostate lemma TurnedLeftKeepsShape(node: AvlNode, new top: AvlNode, new inner: AvlNode?, new up: AvlNode?)
      requires old(Shape()) && node in old(nodes)
      requires top == old(node.right) && inner == old(node.right.left) && up == old(node.parent)
      requires leaders == old(leaders) && nodes == old(nodes)
      requires TurnedLeft(node, top, inner, up)
      requires forall m :: m in nodes ==> 1 <= m.ht
      ensures Shape()
    {
      assert old(Linked(node)) && old(Linked(top));
      forall m | m in nodes
        ensures Linked(m)
      {
        assert old(Linked(m));
      }
    }

    twostate lemma TurnedLeftKeepsBalance(new node: AvlNode, new top: AvlNode, new inner: AvlNode?, new up: AvlNode?, x: AvlNode?)
      requires old(Shape()) && node in old(nodes) && Shape()
      requires top == old(node.right) && inner == old(node.right.left) && up == old(node.parent)
      requires old(BalancedBeyond(node, top, up, x)) && TurnedLeft(node, top, inner, up)
      requires forall m :: m in nodes && m != node && m != top ==> m.balance == old(m.balance) && m.ht == old(m.ht)
      ensures BalancedBeyond(node, top, up, x)
    {
      assert old(Linked(node)) && old(Linked(top));
      forall m | m in nodes && m != node && m != top && m != up && m != x
        ensures Fine(m)
      {
        assert old(Linked(m)) && old(Fine(m)) && Linked(m);
      }
    }

    twostate lemma TurnedLeftSeenAbove(node: AvlNode, new top: AvlNode, new inner: AvlNode?, new up: AvlNode?)
      requires old(Shape()) && node in old(nodes)
      requires top == old(node.right) && inner == old(node.right.left) && up == old(node.parent)
      requires TurnedLeft(node, top, inner, up)
      requires forall m :: m in nodes && m != node && m != top ==> m.balance == old(m.balance) && m.ht == old(m.ht)
      ensures forall h :: old(Expects(up, node, h)) ==> Expects(up, top, h)
    {
      assert old(Linked(node)) && old(Linked(top));
      if up != null {
        assert old(Linked(up));
      }
    }

    method RelinkLeft(node: AvlNode)
      requires Shape() && node in nodes && node.right != null
      modifies this`root, nodes`parent, nodes`right, nodes`left, nodes`lo, nodes`hi
      ensures TurnedLeft(node, old(node.right), old(node.right.left), old(node.parent))
    {
      var right := node.right;
      var parent := node.parent;
      Apart(node, right);
      right.parent := parent;
      node.parent := right;
      if parent == null {
        root := right;
      } else if parent.left == node {
        parent.left := right;
      } else {
        parent.right := right;
      }
      node.right := right.left;
      right.left := node;
      if node.right != null {
        node.right.parent := node;
      }
      right.lo, node.hi := node.lo, right.pos;
    }

    /** The arithmetic a left rotation does on the stored balances. */
    static method ReweighLeft(node: AvlNode, right: AvlNode)
      requires node != right && right.left == node && node.right != right && node.left != right && right.right != node
      requires node.right != node && node.left != node && right.right != right
      requires var a, b, c := Height(right.right), Height(node.right), Height(node.left);
               right.balance == a - b && node.balance == 1 + Max(a, b) - c && 0 <= a && 0 <= b && 0 <= c
      modifies node`balance, right`balance, node`ht, right`ht
      ensures Weighed(node) && Weighed(right) && 1 <= node.ht && 1 <= right.ht
    {
      ghost var a, b, c := Height(right.right), Height(node.right), Height(node.left);
      node.balance := node.balance - 1;
      if right.balance > 0 {
        node.balance := node.balance - right.balance;
      }
      right.balance := right.balance - 1;
      if node.balance < 0 {
        right.balance := right.balance + node.balance;
      }
      node.ht := 1 + Max(b, c);
      right.ht := 1 + Max(a, node.ht);
    }

    method RotateLeft(node: AvlNode, ghost x: AvlNode?)
      requires Shape() && node in nodes && node.right != null
      requires BalancedBeyond(node, node.right, node.parent, x)
      requires Weighed(node) && Weighed(node.right)
      modifies this`root, nodes`parent, nodes`right, nodes`left, nodes`balance, nodes`lo, nodes`hi, nodes`ht
      ensures Shape()
      ensures TurnedLeft(node, old(node.right), old(node.right.left), old(node.parent))
      ensures Weighed(node) && Weighed(old(node.right))
      ensures forall m :: m in nodes && m != node && m != old(node.right) ==> m.balance == old(m.balance) && m.ht == old(m.ht)
      ensures BalancedBeyond(node, old(node.right), old(node.parent), x)
      ensures forall h :: old(Expects(node.parent, node, h)) ==> Expects(old(node.parent), old(node.right), h)
    {
      var right := node.right;
      ghost var inner, up := right.left, node.parent;
      Apart(node, right);
      RelinkLeft(node);
      ReweighLeft(node, right);
      TurnedLeftKeepsShape(node, right, inner, up);
      TurnedLeftKeepsBalance(node, right, inner, up, x);
      TurnedLeftSeenAbove(node, right, inner, up);
    }


    /** Rotations at `p` put `top` in its place and balanced everything except, perhaps, `up`. */
    twostate predicate Mended(p: AvlNode, top: AvlNode, up: AvlNode?)
      reads this, nodes
    {
      && nodes == old(nodes) && p in nodes && top in nodes && Shape() && BalancedOutside(up, null, null)
      && top.parent == up && p.parent == top && top.lo == old(p.lo) && top.hi == old(p.hi)
      && forall h :: old(Expects(up, p, h)) ==> Expects(up, top, h)
    }

    method SingleRight(p: AvlNode)
      requires Shape() && p in nodes && BalancedOutside(p, p.parent, null)
      requires p.left != null && Weighed(p) && p.balance == -2 && p.left.balance <= 0
      modifies this`root, nodes`parent, nodes`left, nodes`right, nodes`balance, nodes`lo, nodes`hi, nodes`ht
      ensures Mended(p, old(p.left), old(p.parent))
      ensures old(p.left).ht == old(p.ht) - (if old(p.left.balance) == 0 then 0 else 1)
    {
      ghost var top, up := p.left, p.parent;
      Apart(p, top);
      assert Fine(top);
      RotateRight(p, null);
      assert Linked(p) && Linked(top) && Fine(p) && Fine(top);
    }

    /** The first half of a double rotation: the grandchild between `p` and its child moves up. */
    method TurnInnerLeft(p: AvlNode)
      requires Shape() && p in nodes && BalancedOutside(p, p.parent, null)
      requires p.left != null && Weighed(p) && p.balance == -2 && p.left.balance == 1 && p.left.right != null
      modifies this`root, nodes`parent, nodes`left, nodes`right, nodes`balance, nodes`lo, nodes`hi, nodes`ht
      ensures Shape() && p.parent == old(p.parent) && p.lo == old(p.lo) && p.hi == old(p.hi) && p.ht == old(p.ht)
      ensures p.left == old(p.left.right) && BalancedOutside(p, p.parent, p.left)
      ensures Weighed(p) && Weighed(p.left) && p.balance == -2 && -2 <= p.left.balance <= -1 && Height(p.left.left) == p.left.ht - 1
      ensures forall h :: old(Expects(p.parent, p, h)) ==> Expects(p.parent, p, h)
    {
      ghost var side, top, up := p.left, p.left.right, p.parent;
      Apart(p, side);
      Apart(side, top);
      assert Fine(side) && Fine(top);
      RotateLeft(p.left, up);
      assert Linked(side) && Linked(top) && Fine(side);
      if up != null {
        assert old(Linked(up));
      }
    }

    method DoubleRight(p: AvlNode)
      requires Shape() && p in nodes && BalancedOutside(p, p.parent, null)
      requires p.left != null && Weighed(p) && p.balance == -2 && p.left.balance == 1 && p.left.right != null
      modifies this`root, nodes`parent, nodes`left, nodes`right, nodes`balance, nodes`lo, nodes`hi, nodes`ht
      ensures Mended(p, old(p.left.right), old(p.parent))
      ensures old(p.left.right).ht == old(p.ht) - 1
    {
      ghost var top, up := p.left.right, p.parent;
      TurnInnerLeft(p);
      Apart(p, top);
      RotateRight(p, null);
      assert Linked(p) && Linked(top) && Fine(p) && Fine(top);
    }

    method SingleLeft(p: AvlNode)
      requires Shape() && p in nodes && BalancedOutside(p, p.parent, null)
      requires p.right != null && Weighed(p) && p.balance == 2 && p.right.balance >= 0
      modifies this`root, nodes`parent, nodes`left, nodes`right, nodes`balance, nodes`lo, nodes`hi, nodes`ht
      ensures Mended(p, old(p.right), old(p.parent))
      ensures old(p.right).ht == old(p.ht) - (if old(p.right.balance) == 0 then 0 else 1)
    {
      ghost var top, up := p.right, p.parent;
      Apart(p, top);
      assert Fine(top);
      RotateLeft(p, null);
      assert Linked(p) && Linked(top) && Fine(p) && Fine(top);
    }

    /** The first half of a double rotation: the grandchild between `p` and its child moves up. */
    method TurnInnerRight(p: AvlNode)
      requires Shape() && p in nodes && BalancedOutside(p, p.parent, null)
      requires p.right != null && Weighed(p) && p.balance == 2 && p.right.balance == -1 && p.right.left != null
      modifies this`root, nodes`parent, nodes`left, nodes`right, nodes`balance, nodes`lo, nodes`hi, nodes`ht
      ensures Shape() && p.parent == old(p.parent) && p.lo == old(p.lo) && p.hi == old(p.hi) && p.ht == old(p.ht)
      ensures p.right == old(p.right.left) && BalancedOutside(p, p.parent, p.right)
      ensures Weighed(p) && Weighed(p.right) && p.balance == 2 && 1 <= p.right.balance <= 2 && Height(p.right.right) == p.right.ht - 1
      ensures forall h :: old(Expects(p.parent, p, h)) ==> Expects(p.parent, p, h)
    {
      ghost var side, top, up := p.right, p.right.left, p.parent;
      Apart(p, side);
      Apart(side, top);
      assert Fine(side) && Fine(top);
      RotateRight(p.right, up);
      assert Linked(side) && Linked(top) && Fine(side);
      if up != null {
        assert old(Linked(up));
      }
    }

    method DoubleLeft(p: AvlNode)
      requires Shape() && p in nodes && BalancedOutside(p, p.parent, null)
      requires p.right != null && Weighed(p) && p.balance == 2 && p.right.balance == -1 && p.right.left != null
      modifies this`root, nodes`parent, nodes`left, nodes`right, nodes`balance, nodes`lo, nodes`hi, nodes`ht
      ensures Mended(p, old(p.right.left), old(p.parent))
      ensures old(p.right.left).ht == old(p.ht) - 1
    {
      ghost var top, up := p.right.left, p.parent;
      TurnInnerRight(p);
      Apart(p, top);
      RotateLeft(p, null);
      assert Linked(p) && Linked(top) && Fine(p) && Fine(top);
    }

    /** Only the weight of `p` changed. */
    twostate predicate OnlyWeight(p: AvlNode)
      reads this, nodes
    {
      && nodes == old(nodes) && leaders == old(leaders) && root == old(root) && p in nodes && 1 <= p.ht
      && forall m :: m in old(nodes) ==>
            && m.left == old(m.left) && m.right == old(m.right) && m.parent == old(m.parent)
            && m.pos == old(m.pos) && m.lo == old(m.lo) && m.hi == old(m.hi)
            && (m != p ==> m.balance == old(m.balance) && m.ht == old(m.ht))
    }

    twostate lemma RestampedShape(p: AvlNode)
      requires old(Shape()) && OnlyWeight(p)
      ensures Shape()
    {
      forall m | m in nodes
        ensures Linked(m)
      {
        assert old(Linked(m));
      }
    }

    twostate lemma RestampedBalance(p: AvlNode)
      requires old(Shape()) && OnlyWeight(p) && old(BalancedOutside(p, p.parent, null))
      ensures BalancedOutside(p, p.parent, null)
    {
      forall m | m in nodes && m != p && m != p.parent
        ensures Fine(m)
      {
        assert old(Linked(m)) && old(Fine(m));
      }
    }

    twostate lemma RestampedParent(p: AvlNode)
      requires old(Shape()) && OnlyWeight(p) && old(BalancedOutside(p, null, null))
      ensures Expects(p.parent, p, old(p.ht))
    {
      if p.parent != null {
        assert old(Linked(p)) && old(Linked(p.parent)) && old(Fine(p.parent));
      }
    }

    /** Stores a new balance at `p`, whose height becomes `ht`. */
    method Stamp(p: AvlNode, balance: int, ghost ht: int)
      requires Shape() && p in nodes && BalancedOutside(p, null, null) && 1 <= ht
      modifies p`balance, p`ht
      ensures Shape() && p.balance == balance && p.ht == ht
      ensures BalancedOutside(p, p.parent, null) && Expects(p.parent, p, old(p.ht))
      ensures forall m :: m in nodes && m != p ==> m.ht == old(m.ht)
    {
      p.balance, p.ht := balance, ht;
      RestampedShape(p);
      RestampedBalance(p);
      RestampedParent(p);
    }

    /** The subtree of `node` is `d` higher than the node above it believes; all else is balanced. */
    ghost predicate Off(node: AvlNode, d: int)
      reads this, nodes
    {
      node in nodes && BalancedOutside(node.parent, null, null) && Expects(node.parent, node, node.ht - d)
    }

    method PostInsert(node: AvlNode)
      requires Shape() && Off(node, 1) && node.balance != 0
      modifies this`root, nodes`parent, nodes`left, nodes`right, nodes`balance, nodes`lo, nodes`hi, nodes`ht
      ensures Shape() && BalancedOutside(null, null, null)
      decreases |leaders| - (node.hi - node.lo), 1
    {
      var parent := node.parent;
      assert Linked(node);
      if parent == null {
        return;
      }
      if node == parent.left {
        PostInsertLeft(node, parent);
      } else {
        PostInsertRight(node, parent);
      }
    }

    method PostInsertLeft(node: AvlNode, parent: AvlNode)
      requires Shape() && Off(node, 1) && node.balance != 0 && node.parent == parent && node == parent.left
      modifies this`root, nodes`parent, nodes`left, nodes`right, nodes`balance, nodes`lo, nodes`hi, nodes`ht
      ensures Shape() && BalancedOutside(null, null, null)
      decreases |leaders| - (node.hi - node.lo), 0
    {
      Apart(parent, node);
      Stamp(parent, parent.balance - 1, if parent.balance == 1 then parent.ht else parent.ht + 1);
      assert Linked(parent);
      if parent.balance == 0 {
        assert Fine(parent);
        SettledAbove(parent);
        return;
      }
      if parent.balance == -1 {
        assert Fine(parent);
        PostInsert(parent);
        return;
      }
      PostInsertLeftTurn(node, parent);
    }

    method PostInsertLeftTurn(node: AvlNode, parent: AvlNode)
      requires Shape() && parent in nodes && node == parent.left && Weighed(parent) && parent.balance == -2
      requires BalancedOutside(parent, parent.parent, null) && Expects(parent.parent, parent, parent.ht - 1)
      requires node.balance != 0
      modifies this`root, nodes`parent, nodes`left, nodes`right, nodes`balance, nodes`lo, nodes`hi, nodes`ht
      ensures Shape() && BalancedOutside(null, null, null)
    {
      assert Linked(parent) && Fine(node);
      if node.balance == -1 {
        SingleRight(parent);
        SettledAbove(node);
        return;
      }
      assert Linked(node);
      ghost var turned := node.right;
      DoubleRight(parent);
      SettledAbove(turned);
    }

    method PostInsertRight(node: AvlNode, parent: AvlNode)
      requires Shape() && Off(node, 1) && node.balance != 0 && node.parent == parent && node == parent.right
      modifies this`root, nodes`parent, nodes`right, nodes`left, nodes`balance, nodes`lo, nodes`hi, nodes`ht
      ensures Shape() && BalancedOutside(null, null, null)
      decreases |leaders| - (node.hi - node.lo), 0
    {
      Apart(parent, node);
      Stamp(parent, parent.balance + 1, if parent.balance == -1 then parent.ht else parent.ht + 1);
      assert Linked(parent);
      if parent.balance == 0 {
        assert Fine(parent);
        SettledAbove(parent);
        return;
      }
      if parent.balance == 1 {
        assert Fine(parent);
        PostInsert(parent);
        return;
      }
      PostInsertRightTurn(node, parent);
    }

    method PostInsertRightTurn(node: AvlNode, parent: AvlNode)
      requires Shape() && parent in nodes && node == parent.right && Weighed(parent) && parent.balance == 2
      requires BalancedOutside(parent, parent.parent, null) && Expects(parent.parent, parent, parent.ht - 1)
      requires node.balance != 0
      modifies this`root, nodes`parent, nodes`right, nodes`left, nodes`balance, nodes`lo, nodes`hi, nodes`ht
      ensures Shape() && BalancedOutside(null, null, null)
    {
      assert Linked(parent) && Fine(node);
      if node.balance == 1 {
        SingleLeft(parent);
        SettledAbove(node);
        return;
      }
      assert Linked(node);
      ghost var turned := node.left;
      DoubleLeft(parent);
      SettledAbove(turned);
    }

    /** The node above `p` expects what `p` is. */
    lemma SettledAbove(p: AvlNode)
      requires Shape() && p in nodes && BalancedOutside(p.parent, null, null) && Expects(p.parent, p, p.ht)
      ensures BalancedOutside(null, null, null)
    {
      if p.parent != null {
        assert Linked(p) && Linked(p.parent) && Fine(p.parent);
      }
    }

    method PostRemove(node: AvlNode)
      requires Shape() && Off(node, -1)
      modifies this`root, nodes`parent, nodes`left, nodes`right, nodes`balance, nodes`lo, nodes`hi, nodes`ht
      ensures Shape() && BalancedOutside(null, null, null)
      decreases |leaders| - (node.hi - node.lo), 0
    {
      var parent := node.parent;
      if parent == null {
        return;
      }
      Apart(parent, node);
      assert Linked(node) && Linked(parent);
      if node == parent.left {
        LeftShrank(parent);
      } else {
        RightShrank(parent);
      }
    }

    /** The left subtree of `p` became one lower than `p` believes. */
    method LeftShrank(p: AvlNode)
      requires Shape() && p in nodes && BalancedOutside(p, null, null)
      requires assert Linked(p); Believes(p, Height(p.left) + 1, Height(p.right))
      modifies this`root, nodes`parent, nodes`left, nodes`right, nodes`balance, nodes`lo, nodes`hi, nodes`ht
      ensures Shape() && BalancedOutside(null, null, null)
      decreases |leaders| - (p.hi - p.lo), 2
    {
      assert Linked(p);
      Stamp(p, p.balance + 1, if p.balance == -1 then p.ht - 1 else p.ht);
      assert Linked(p);
      if p.balance == 0 {
        assert Fine(p);
        PostRemove(p);
        return;
      }
      if p.balance == 1 {
        assert Fine(p);
        SettledAbove(p);
        return;
      }
      LeftShrankTurn(p);
    }

    method LeftShrankTurn(p: AvlNode)
      requires Shape() && p in nodes && BalancedOutside(p, p.parent, null) && Expects(p.parent, p, p.ht)
      requires assert Linked(p); Weighed(p) && p.balance == 2
      modifies this`root, nodes`parent, nodes`left, nodes`right, nodes`balance, nodes`lo, nodes`hi, nodes`ht
      ensures Shape() && BalancedOutside(null, null, null)
      decreases |leaders| - (p.hi - p.lo), 1
    {
      assert Linked(p) && Fine(p.right);
      ghost var turned := p.right;
      if p.right.balance == 0 {
        SingleLeft(p);
        SettledAbove(turned);
        return;
      }
      if p.right.balance == 1 {
        SingleLeft(p);
        PostRemove(p.parent);
        return;
      }
      assert Linked(p.right);
      turned := p.right.left;
      DoubleLeft(p);
      assert Linked(turned);
      PostRemove(p.parent);
    }

    /** The right subtree of `p` became one lower than `p` believes. */
    method RightShrank(p: AvlNode)
      requires Shape() && p in nodes && BalancedOutside(p, null, null)
      requires assert Linked(p); Believes(p, Height(p.left), Height(p.right) + 1)
      modifies this`root, nodes`parent, nodes`right, nodes`left, nodes`balance, nodes`lo, nodes`hi, nodes`ht
      ensures Shape() && BalancedOutside(null, null, null)
      decreases |leaders| - (p.hi - p.lo), 2
    {
      assert Linked(p);
      Stamp(p, p.balance - 1, if p.balance == 1 then p.ht - 1 else p.ht);
      assert Linked(p);
      if p.balance == 0 {
        assert Fine(p);
        PostRemove(p);
        return;
      }
      if p.balance == -1 {
        assert Fine(p);
        SettledAbove(p);
        return;
      }
      RightShrankTurn(p);
    }

    method RightShrankTurn(p: AvlNode)
      requires Shape() && p in nodes && BalancedOutside(p, p.parent, null) && Expects(p.parent, p, p.ht)
      requires assert Linked(p); Weighed(p) && p.balance == -2
      modifies this`root, nodes`parent, nodes`right, nodes`left, nodes`balance, nodes`lo, nodes`hi, nodes`ht
      ensures Shape() && BalancedOutside(null, null, null)
      decreases |leaders| - (p.hi - p.lo), 1
    {
      assert Linked(p) && Fine(p.left);
      ghost var turned := p.left;
      if p.left.balance == 0 {
        SingleRight(p);
        SettledAbove(turned);
        return;
      }
      if p.left.balance == -1 {
        SingleRight(p);
        PostRemove(p.parent);
        return;
      }
      assert Linked(p.left);
      turned := p.left.right;
      DoubleRight(p);
      assert Linked(turned);
      PostRemove(p.parent);
    }

    /** `leaders` lists the tree nodes by position. */
    ghost predicate Indexed()
      reads this, nodes
    {
      && (forall n :: n in nodes ==> 0 <= n.pos < |leaders| && leaders[n.pos] == n)
      && forall i :: 0 <= i < |leaders| ==> leaders[i] in nodes && leaders[i].pos == i
    }

    /** `node` became the left child of `at`; the positions from `i` on moved up. */
    twostate predicate AttachedLeft(at: AvlNode, new node: AvlNode, i: int)
      reads this, nodes, at, node
    {
      && at in old(nodes) && node !in old(nodes) && nodes == old(nodes) + {node} && root == old(root)
      && i == old(at.pos) && 0 <= i <= |old(leaders)| && leaders == Inserted(old(leaders), i, node)
      && node.pos == node.lo == i && node.hi == i + 1 && node.parent == at && node.left == null && node.right == null
      && node.ht == 1 && node.balance == 0 && at.left == node && at.right == old(at.right)
      && forall m :: m in old(nodes) ==>
            && m.pos == (if old(m.pos) >= i then old(m.pos) + 1 else old(m.pos))
            && m.lo == (if old(m.lo) > i then old(m.lo) + 1 else old(m.lo))
            && m.hi == (if old(m.hi) > i then old(m.hi) + 1 else old(m.hi))
            && m.parent == old(m.parent) && m.balance == old(m.balance) && m.ht == old(m.ht)
            && (m != at ==> m.left == old(m.left) && m.right == old(m.right))
    }

    twostate lemma AttachedLeftShape(at: AvlNode, new node: AvlNode, new i: int)
      requires old(Shape()) && old(Indexed()) && AttachedLeft(at, node, i) && old(at.left) == null
      ensures Shape()
    {
      AttachedLeftRoot(at, node, i);
      AttachedLeftNode(at, node, i);
      hide AttachedLeft, Linked;
      forall m | m in nodes
        ensures Linked(m)
      {
        if m != node {
          AttachedLeftLinked(at, node, i, m);
        }
      }
    }

    twostate lemma AttachedLeftRoot(at: AvlNode, new node: AvlNode, new i: int)
      requires old(Shape()) && AttachedLeft(at, node, i)
      ensures nodes == old(nodes) + {node} && root != null && root in nodes && root.parent == null && root.lo == 0 && root.hi == |leaders|
      ensures forall n :: n in nodes ==> 1 <= n.ht
    {
      assert old(Linked(at));
      assert root != null ==> old(Linked(root));
    }

    twostate lemma AttachedLeftNode(at: AvlNode, new node: AvlNode, new i: int)
      requires old(Shape()) && AttachedLeft(at, node, i) && old(at.left) == null
      ensures Linked(node)
    {
      assert old(Linked(at));
    }

    twostate lemma AttachedLeftLinked(at: AvlNode, new node: AvlNode, new i: int, new m: AvlNode)
      requires old(Shape()) && old(Indexed()) && AttachedLeft(at, node, i) && old(at.left) == null
      requires m in old(nodes)
      ensures Linked(m)
    {
      assert old(Linked(at)) && old(Linked(m));
      assert m != at ==> old(m.pos) != old(at.pos);
      assert old(m.left) != null ==> old(Linked(m.left));
      assert old(m.right) != null ==> old(Linked(m.right));
    }

    twostate lemma AttachedLeftIndexed(at: AvlNode, new node: AvlNode, new i: int)
      requires old(Shape()) && old(Indexed()) && AttachedLeft(at, node, i) && 0 <= i <= |old(leaders)|
      ensures Indexed()
    {
      forall j | 0 <= j < |leaders|
        ensures leaders[j] in nodes && leaders[j].pos == j
      {
        assert leaders[j] == if j < i then old(leaders)[j] else if j == i then node else old(leaders)[j - 1];
      }
      forall n | n in nodes
        ensures 0 <= n.pos < |leaders| && leaders[n.pos] == n
      {
        if n != node {
          assert old(leaders)[old(n.pos)] == n;
        }
      }
    }

    twostate lemma AttachedLeftBalance(at: AvlNode, new node: AvlNode, new i: int)
      requires old(Shape()) && old(BalancedOutside(null, null, null)) && AttachedLeft(at, node, i) && old(at.left) == null
      ensures BalancedOutside(at, null, null)
      ensures at.right == old(at.right) && (at.right == null || at.right in nodes) && Believes(at, 0, Height(at.right))
    {
      assert old(Linked(at)) && old(Fine(at));
      forall m | m in nodes && m != at
        ensures Fine(m)
      {
        if m != node {
          assert old(Linked(m)) && old(Fine(m));
        }
      }
    }

    ghost method OpenGapLeft(before: set<AvlNode>, i: int)
      modifies before`pos, before`lo, before`hi
      ensures forall m :: m in before ==>
                && m.pos == (if old(m.pos) >= i then old(m.pos) + 1 else old(m.pos))
                && m.lo == (if old(m.lo) > i then old(m.lo) + 1 else old(m.lo))
                && m.hi == (if old(m.hi) > i then old(m.hi) + 1 else old(m.hi))
    {
      forall m | m in before {
        m.pos := if m.pos >= i then m.pos + 1 else m.pos;
      }
      forall m | m in before {
        m.lo := if m.lo > i then m.lo + 1 else m.lo;
      }
      forall m | m in before {
        m.hi := if m.hi > i then m.hi + 1 else m.hi;
      }
    }

    method AttachLeft(at: AvlNode, node: AvlNode)
      requires Shape() && Indexed() && BalancedOutside(null, null, null)
      requires at in nodes && at.left == null && node !in nodes && node.left == null && node.right == null && node.balance == 0
      modifies this`nodes, this`leaders, nodes`pos, nodes`lo, nodes`hi, at`left, node`parent, node`pos, node`lo, node`hi, node`ht
      ensures Shape() && Indexed() && BalancedOutside(at, null, null)
      ensures at.left == node && at.right == old(at.right) && (at.right == null || at.right in nodes) && Believes(at, 0, Height(at.right)) && node.ht == 1
      ensures nodes == old(nodes) + {node} && 0 <= old(at.pos) <= |old(leaders)|
      ensures leaders == Inserted(old(leaders), old(at.pos), node)
    {
      assert Linked(at);
      ghost var i := at.pos;
      ghost var before := nodes;
      node.parent := at;
      at.left := node;
      node.pos, node.lo, node.hi, node.ht := i, i, i + 1, 1;
      nodes, leaders := nodes + {node}, Inserted(leaders, i, node);
      OpenGapLeft(before, i);
      AttachedLeftShape(at, node, i);
      AttachedLeftIndexed(at, node, i);
      AttachedLeftBalance(at, node, i);
    }

    /** `node` became the right child of `at`; the positions from `i` on moved up. */
    twostate predicate AttachedRight(at: AvlNode, new node: AvlNode, i: int)
      reads this, nodes, at, node
    {
      && at in old(nodes) && node !in old(nodes) && nodes == old(nodes) + {node} && root == old(root)
      && i == old(at.pos) + 1 && 0 <= i <= |old(leaders)| && leaders == Inserted(old(leaders), i, node)
      && node.pos == node.lo == i && node.hi == i + 1 && node.parent == at && node.left == null && node.right == null
      && node.ht == 1 && node.balance == 0 && at.right == node && at.left == old(at.left)
      && forall m :: m in old(nodes) ==>
            && m.pos == (if old(m.pos) >= i then old(m.pos) + 1 else old(m.pos))
            && m.lo == (if old(m.lo) >= i then old(m.lo) + 1 else old(m.lo))
            && m.hi == (if old(m.hi) >= i then old(m.hi) + 1 else old(m.hi))
            && m.parent == old(m.parent) && m.balance == old(m.balance) && m.ht == old(m.ht)
            && (m != at ==> m.left == old(m.left) && m.right == old(m.right))
    }

    twostate lemma AttachedRightShape(at: AvlNode, new node: AvlNode, new i: int)
      requires old(Shape()) && old(Indexed()) && AttachedRight(at, node, i) && old(at.right) == null
      ensures Shape()
    {
      AttachedRightRoot(at, node, i);
      AttachedRightNode(at, node, i);
      hide AttachedRight, Linked;
      forall m | m in nodes
        ensures Linked(m)
      {
        if m != node {
          AttachedRightLinked(at, node, i, m);
        }
      }
    }

    twostate lemma AttachedRightRoot(at: AvlNode, new node: AvlNode, new i: int)
      requires old(Shape()) && AttachedRight(at, node, i)
      ensures nodes == old(nodes) + {node} && root != null && root in nodes && root.parent == null && root.lo == 0 && root.hi == |leaders|
      ensures forall n :: n in nodes ==> 1 <= n.ht
    {
      assert old(Linked(at));
      assert root != null ==> old(Linked(root));
    }

    twostate lemma AttachedRightNode(at: AvlNode, new node: AvlNode, new i: int)
      requires old(Shape()) && AttachedRight(at, node, i) && old(at.right) == null
      ensures Linked(node)
    {
      assert old(Linked(at));
    }

    twostate lemma AttachedRightLinked(at: AvlNode, new node: AvlNode, new i: int, new m: AvlNode)
      requires old(Shape()) && old(Indexed()) && AttachedRight(at, node, i) && old(at.right) == null
      requires m in old(nodes)
      ensures Linked(m)
    {
      assert old(Linked(at)) && old(Linked(m));
      assert m != at ==> old(m.pos) != old(at.pos);
      assert old(m.left) != null ==> old(Linked(m.left));
      assert old(m.right) != null ==> old(Linked(m.right));
    }

    twostate lemma AttachedRightIndexed(at: AvlNode, new node: AvlNode, new i: int)
      requires old(Shape()) && old(Indexed()) && AttachedRight(at, node, i) && 0 <= i <= |old(leaders)|
      ensures Indexed()
    {
      forall j | 0 <= j < |leaders|
        ensures leaders[j] in nodes && leaders[j].pos == j
      {
        assert leaders[j] == if j < i then old(leaders)[j] else if j == i then node else old(leaders)[j - 1];
      }
      forall n | n in nodes
        ensures 0 <= n.pos < |leaders| && leaders[n.pos] == n
      {
        if n != node {
          assert old(leaders)[old(n.pos)] == n;
        }
      }
    }

    twostate lemma AttachedRightBalance(at: AvlNode, new node: AvlNode, new i: int)
      requires old(Shape()) && old(BalancedOutside(null, null, null)) && AttachedRight(at, node, i) && old(at.right) == null
      ensures BalancedOutside(at, null, null)
      ensures at.left == old(at.left) && (at.left == null || at.left in nodes) && Believes(at, Height(at.left), 0)
    {
      assert old(Linked(at)) && old(Fine(at));
      forall m | m in nodes && m != at
        ensures Fine(m)
      {
        if m != node {
          assert old(Linked(m)) && old(Fine(m));
        }
      }
    }

    ghost method OpenGapRight(before: set<AvlNode>, i: int)
      modifies before`pos, before`lo, before`hi
      ensures forall m :: m in before ==>
                && m.pos == (if old(m.pos) >= i then old(m.pos) + 1 else old(m.pos))
                && m.lo == (if old(m.lo) >= i then old(m.lo) + 1 else old(m.lo))
                && m.hi == (if old(m.hi) >= i then old(m.hi) + 1 else old(m.hi))
    {
      forall m | m in before {
        m.pos := if m.pos >= i then m.pos + 1 else m.pos;
      }
      forall m | m in before {
        m.lo := if m.lo >= i then m.lo + 1 else m.lo;
      }
      forall m | m in before {
        m.hi := if m.hi >= i then m.hi + 1 else m.hi;
      }
    }

    method AttachRight(at: AvlNode, node: AvlNode)
      requires Shape() && Indexed() && BalancedOutside(null, null, null)
      requires at in nodes && at.right == null && node !in nodes && node.left == null && node.right == null && node.balance == 0
      modifies this`nodes, this`leaders, nodes`pos, nodes`lo, nodes`hi, at`right, node`parent, node`pos, node`lo, node`hi, node`ht
      ensures Shape() && Indexed() && BalancedOutside(at, null, null)
      ensures at.right == node && at.left == old(at.left) && (at.left == null || at.left in nodes) && Believes(at, Height(at.left), 0) && node.ht == 1
      ensures nodes == old(nodes) + {node} && 0 <= old(at.pos) + 1 <= |old(leaders)|
      ensures leaders == Inserted(old(leaders), old(at.pos) + 1, node)
    {
      assert Linked(at);
      ghost var i := at.pos + 1;
      ghost var before := nodes;
      node.parent := at;
      at.right := node;
      node.pos, node.lo, node.hi, node.ht := i, i, i + 1, 1;
      nodes, leaders := nodes + {node}, Inserted(leaders, i, node);
      OpenGapRight(before, i);
      AttachedRightShape(at, node, i);
      AttachedRightIndexed(at, node, i);
      AttachedRightBalance(at, node, i);
    }

    /** `node` left the tree, `child` took its place below `up` and the later positions moved down. */
    twostate predicate Detached(node: AvlNode, child: AvlNode?, up: AvlNode?, i: int)
      reads this, nodes
    {
      && node in old(nodes) && nodes == old(nodes) - {node} && i == old(node.pos)
      && 0 <= i < |old(leaders)| && leaders == Without(old(leaders), i)
      && root == (if up == null then child else old(root))
      && forall m :: m in nodes ==>
            && m.pos == (if old(m.pos) > i then old(m.pos) - 1 else old(m.pos))
            && m.lo == (if old(m.lo) > i then old(m.lo) - 1 else old(m.lo))
            && m.hi == (if old(m.hi) > i then old(m.hi) - 1 else old(m.hi))
            && m.balance == old(m.balance) && m.ht == old(m.ht)
            && m.parent == (if m == child then up else old(m.parent))
            && m.left == (if m == up && old(m.left) == node then child else old(m.left))
            && m.right == (if m == up && old(m.left) != node then child else old(m.right))
    }

    twostate lemma DetachedShape(node: AvlNode, new child: AvlNode?, new up: AvlNode?, new i: int)
      requires node in old(nodes) && up == old(node.parent)
      requires (old(node.left) == null && child == old(node.right)) || (old(node.right) == null && child == old(node.left))
      requires old(Shape()) && old(Indexed()) && Detached(node, child, up, i)
      ensures Shape()
    {
      forall m | m in nodes
        ensures Linked(m)
      {
        DetachedLinked(node, child, up, i, m);
      }
      DetachedRoot(node, child, up, i);
    }

    twostate lemma DetachedLinked(node: AvlNode, new child: AvlNode?, new up: AvlNode?, new i: int, new m: AvlNode)
      requires node in old(nodes) && up == old(node.parent)
      requires (old(node.left) == null && child == old(node.right)) || (old(node.right) == null && child == old(node.left))
      requires old(Shape()) && old(Indexed()) && Detached(node, child, up, i) && m in nodes
      ensures Linked(m)
    {
      assert old(Linked(node)) && old(Linked(m)) && old(m.pos) != i;
      if m == child {
        DetachedLinkedChild(node, child, up, i, m);
      } else if m == up {
        DetachedLinkedUp(node, child, up, i, m);
      } else {
        assert old(m.left) != null ==> old(Linked(m.left));
        assert old(m.right) != null ==> old(Linked(m.right));
      }
    }

    twostate lemma DetachedLinkedChild(node: AvlNode, new child: AvlNode?, new up: AvlNode?, new i: int, new m: AvlNode)
      requires node in old(nodes) && up == old(node.parent)
      requires (old(node.left) == null && child == old(node.right)) || (old(node.right) == null && child == old(node.left))
      requires old(Shape()) && old(Indexed()) && Detached(node, child, up, i) && m in nodes
      requires m == child
      ensures Linked(m)
    {
      assert old(Linked(node)) && old(Linked(m)) && old(m.pos) != i;
      assert up != null ==> old(Linked(up));
    }

    twostate lemma DetachedLinkedUp(node: AvlNode, new child: AvlNode?, new up: AvlNode?, new i: int, new m: AvlNode)
      requires node in old(nodes) && up == old(node.parent)
      requires (old(node.left) == null && child == old(node.right)) || (old(node.right) == null && child == old(node.left))
      requires old(Shape()) && old(Indexed()) && Detached(node, child, up, i) && m in nodes
      requires m == up
      ensures Linked(m)
    {
      assert old(Linked(node)) && old(Linked(m)) && old(m.pos) != i;
      assert child != null ==> old(Linked(child));
    }

    twostate lemma DetachedRoot(node: AvlNode, new child: AvlNode?, new up: AvlNode?, new i: int)
      requires node in old(nodes) && up == old(node.parent)
      requires (old(node.left) == null && child == old(node.right)) || (old(node.right) == null && child == old(node.left))
      requires old(Shape()) && old(Indexed()) && Detached(node, child, up, i)
      ensures if root == null then nodes == {} else root in nodes && root.parent == null && root.lo == 0 && root.hi == |leaders|
    {
      assert old(Linked(node));
      if up == null && child == null {
        assert |old(leaders)| == 1;
        forall m | m in old(nodes)
          ensures m == node
        {
          assert old(Linked(m)) && old(leaders)[old(m.pos)] == m && old(leaders)[0] == node;
        }
      } else if child != null {
        assert old(Linked(child));
      }
    }

    twostate lemma DetachedIndexed(node: AvlNode, new child: AvlNode?, new up: AvlNode?, new i: int)
      requires node in old(nodes) && up == old(node.parent)
      requires (old(node.left) == null && child == old(node.right)) || (old(node.right) == null && child == old(node.left))
      requires old(Shape()) && old(Indexed()) && Detached(node, child, up, i)
      ensures Indexed()
    {
      forall j | 0 <= j < |leaders|
        ensures leaders[j] in nodes && leaders[j].pos == j
      {
        assert leaders[j] == if j < i then old(leaders)[j] else old(leaders)[j + 1];
      }
      forall n | n in nodes
        ensures 0 <= n.pos < |leaders| && leaders[n.pos] == n
      {
        assert old(leaders)[old(n.pos)] == n;
      }
    }

    twostate lemma DetachedBalance(node: AvlNode, new child: AvlNode?, new up: AvlNode?, new i: int)
      requires node in old(nodes) && up == old(node.parent)
      requires (old(node.left) == null && child == old(node.right)) || (old(node.right) == null && child == old(node.left))
      requires old(Shape()) && old(BalancedOutside(null, null, null)) && Detached(node, child, up, i)
      ensures BalancedOutside(up, null, null)
      ensures child != null ==> child in nodes
      ensures up != null ==> && up in nodes && (up.left == null || up.left in nodes) && (up.right == null || up.right in nodes)
                             && (if old(up.left) == node
                                 then up.left == child && up.right == old(up.right) && (child == null || up.right != child)
                                      && Believes(up, Height(child) + 1, Height(up.right))
                                 else up.right == child && up.left == old(up.left) && (child == null || up.left != child)
                                      && Believes(up, Height(up.left), Height(child) + 1))
    {
      assert old(Linked(node)) && old(Fine(node));
      if child != null { assert old(Linked(child)); }
      if up != null { assert old(Linked(up)) && old(Fine(up)); }
      forall m | m in nodes && m != up
        ensures Fine(m)
      {
        assert old(Linked(m)) && old(Fine(m));
      }
    }

    method RelinkAround(node: AvlNode, child: AvlNode?)
      requires Shape() && node in nodes && (child == node.left || child == node.right)
      modifies this`root, nodes`parent, nodes`left, nodes`right
      ensures root == if old(node.parent) == null then child else old(root)
      ensures forall m :: m in nodes && m != node ==>
                && m.parent == (if m == child then old(node.parent) else old(m.parent))
                && m.left == (if m == old(node.parent) && old(m.left) == node then child else old(m.left))
                && m.right == (if m == old(node.parent) && old(m.left) != node then child else old(m.right))
    {
      assert Linked(node);
      var parent := node.parent;
      if parent != null { assert Linked(parent); }
      if child != null {
        assert Linked(child);
        child.parent := parent;
      }
      if parent == null {
        root := child;
      } else if parent.left == node {
        parent.left := child;
      } else {
        parent.right := child;
      }
    }

    ghost method CloseGap(node: AvlNode)
      requires node in nodes && 0 <= node.pos < |leaders|
      modifies this`nodes, this`leaders, nodes`pos, nodes`lo, nodes`hi
      ensures nodes == old(nodes) - {node} && leaders == Without(old(leaders), old(node.pos))
      ensures forall m :: m in nodes ==>
                && m.pos == (if old(m.pos) > old(node.pos) then old(m.pos) - 1 else old(m.pos))
                && m.lo == (if old(m.lo) > old(node.pos) then old(m.lo) - 1 else old(m.lo))
                && m.hi == (if old(m.hi) > old(node.pos) then old(m.hi) - 1 else old(m.hi))
    {
      var i := node.pos;
      nodes, leaders := nodes - {node}, Without(leaders, i);
      forall m | m in nodes {
        m.pos := if m.pos > i then m.pos - 1 else m.pos;
      }
      forall m | m in nodes {
        m.lo := if m.lo > i then m.lo - 1 else m.lo;
      }
      forall m | m in nodes {
        m.hi := if m.hi > i then m.hi - 1 else m.hi;
      }
    }

    method Unlink(node: AvlNode, child: AvlNode?)
      requires Shape() && Indexed() && node in nodes
      requires (node.left == null && child == node.right) || (node.right == null && child == node.left)
      modifies this`root, this`nodes, this`leaders, nodes`parent, nodes`left, nodes`right, nodes`pos, nodes`lo, nodes`hi
      ensures Detached(node, child, old(node.parent), old(node.pos))
    {
      RelinkAround(node, child);
      CloseGap(node);
    }

    /** `repl` has the place of `node`. */
    twostate predicate Supplanted(node: AvlNode, new repl: AvlNode)
      reads this, nodes, repl
    {
      && node in old(nodes) && repl !in old(nodes) && nodes == old(nodes) - {node} + {repl}
      && 0 <= old(node.pos) < |old(leaders)| && leaders == old(leaders)[old(node.pos) := repl]
      && root == (if old(node.parent) == null then repl else old(root))
      && repl.parent == old(node.parent) && repl.left == old(node.left) && repl.right == old(node.right)
      && repl.balance == old(node.balance) && repl.ht == old(node.ht)
      && repl.pos == old(node.pos) && repl.lo == old(node.lo) && repl.hi == old(node.hi)
      && forall m :: m in old(nodes) && m != node ==>
            && m.pos == old(m.pos) && m.lo == old(m.lo) && m.hi == old(m.hi)
            && m.balance == old(m.balance) && m.ht == old(m.ht)
            && m.parent == (if m == old(node.left) || m == old(node.right) then repl else old(m.parent))
            && m.left == (if m == old(node.parent) && old(m.left) == node then repl else old(m.left))
            && m.right == (if m == old(node.parent) && old(m.left) != node then repl else old(m.right))
    }

    twostate lemma SupplantedShape(node: AvlNode, new repl: AvlNode)
      requires old(Shape()) && Supplanted(node, repl)
      ensures Shape()
    {
      assert old(Linked(node));
      hide Linked;
      forall m | m in nodes
        ensures Linked(m)
      {
        if m == repl {
          SupplantedRepl(node, repl);
        } else {
          SupplantedOther(node, repl, m);
        }
      }
    }

    twostate lemma SupplantedRepl(node: AvlNode, new repl: AvlNode)
      requires old(Shape()) && Supplanted(node, repl)
      ensures Linked(repl)
    {
      assert old(Linked(node));
      assert old(node.parent) != null ==> old(Linked(node.parent));
      assert old(node.left) != null ==> old(Linked(node.left));
      assert old(node.right) != null ==> old(Linked(node.right));
    }

    twostate lemma SupplantedOther(node: AvlNode, new repl: AvlNode, new m: AvlNode)
      requires old(Shape()) && Supplanted(node, repl) && m in nodes && m != repl
      ensures Linked(m)
    {
      assert old(Linked(node)) && old(Linked(m));
      if m == old(node.left) || m == old(node.right) {
        assert m.parent == repl;
      } else if m == old(node.parent) {
        assert old(m.left) != null ==> old(Linked(m.left));
        assert old(m.right) != null ==> old(Linked(m.right));
      }
    }

    twostate lemma SupplantedIndexed(node: AvlNode, new repl: AvlNode)
      requires old(Indexed()) && Supplanted(node, repl)
      ensures Indexed()
    {
      forall n | n in nodes
        ensures 0 <= n.pos < |leaders| && leaders[n.pos] == n
      {
        if n != repl {
          assert old(leaders)[old(n.pos)] == n;
        }
      }
    }

    twostate lemma SupplantedBalance(node: AvlNode, new repl: AvlNode)
      requires old(Shape()) && old(BalancedOutside(null, null, null)) && Supplanted(node, repl)
      ensures BalancedOutside(null, null, null)
    {
      assert old(Linked(node)) && old(Fine(node));
      forall m | m in nodes
        ensures Fine(m)
      {
        if m == repl {
          assert old(node.left) != null ==> old(Linked(node.left));
          assert old(node.right) != null ==> old(Linked(node.right));
        } else {
          assert old(Linked(m)) && old(Fine(m));
        }
      }
    }

    method RelinkTo(node: AvlNode, repl: AvlNode)
      requires Shape() && node in nodes && repl !in nodes
      modifies this`root, nodes`parent, nodes`left, nodes`right
      modifies repl`parent, repl`left, repl`right, repl`balance
      ensures root == if old(node.parent) == null then repl else old(root)
      ensures repl.parent == old(node.parent) && repl.left == old(node.left) && repl.right == old(node.right)
      ensures repl.balance == node.balance
      ensures forall m :: m in nodes && m != node ==>
                && m.parent == (if m == old(node.left) || m == old(node.right) then repl else old(m.parent))
                && m.left == (if m == old(node.parent) && old(m.left) == node then repl else old(m.left))
                && m.right == (if m == old(node.parent) && old(m.left) != node then repl else old(m.right))
    {
      assert Linked(node);
      var parent := node.parent;
      var left, right := node.left, node.right;
      assert parent != null ==> parent in nodes;
      repl.balance := node.balance;
      repl.parent, repl.left, repl.right := parent, left, right;
      if parent == null {
        root := repl;
      } else if node == parent.left {
        parent.left := repl;
      } else {
        parent.right := repl;
      }
      if left != null {
        left.parent := repl;
      }
      if right != null {
        right.parent := repl;
      }
    }

    method Supplant(node: AvlNode, repl: AvlNode)
      requires Shape() && Indexed() && BalancedOutside(null, null, null) && node in nodes && repl !in nodes
      modifies this`root, this`nodes, this`leaders, nodes`parent, nodes`left, nodes`right
      modifies repl`parent, repl`left, repl`right, repl`balance, repl`pos, repl`lo, repl`hi, repl`ht
      ensures Shape() && Indexed() && BalancedOutside(null, null, null)
      ensures nodes == old(nodes) - {node} + {repl}
      ensures 0 <= old(node.pos) < |old(leaders)| && leaders == old(leaders)[old(node.pos) := repl]
    {
      RelinkTo(node, repl);
      repl.pos, repl.lo, repl.hi, repl.ht := node.pos, node.lo, node.hi, node.ht;
      nodes, leaders := nodes - {node} + {repl}, leaders[node.pos := repl];
      SupplantedShape(node, repl);
      SupplantedIndexed(node, repl);
      SupplantedBalance(node, repl);
    }

    method LocalMin(start: AvlNode) returns (node: AvlNode)
      requires Shape() && start in nodes
      ensures node in nodes && node.left == null && node.pos == start.lo
    {
      node := start;
      while node.left != null
        invariant node in nodes && node.lo == start.lo
        decreases node.hi - node.lo
      {
        assert Linked(node) && Linked(node.left);
        node := node.left;
      }
      assert Linked(node);
    }

    method RemoveOuter(node: AvlNode, child: AvlNode?)
      requires Shape() && Indexed() && BalancedOutside(null, null, null) && node in nodes
      requires (node.left == null && child == node.right) || (node.right == null && child == node.left)
      modifies this`root, this`nodes, this`leaders, nodes`parent, nodes`left, nodes`right, nodes`balance
      modifies nodes`pos, nodes`lo, nodes`hi, nodes`ht
      ensures Shape() && Indexed() && BalancedOutside(null, null, null)
      ensures nodes == old(nodes) - {node}
      ensures 0 <= old(node.pos) < |old(leaders)| && leaders == Without(old(leaders), old(node.pos))
    {
      var parent := node.parent;
      var onLeft := parent != null && parent.left == node;
      ghost var i := node.pos;
      Unlink(node, child);
      DetachedShape(node, child, parent, i);
      DetachedIndexed(node, child, parent, i);
      DetachedBalance(node, child, parent, i);
      if parent == null {
        return;
      }
      if child != null {
        assert Linked(child);
        PostRemove(child);
      } else if onLeft {
        LeftShrank(parent);
      } else {
        RightShrank(parent);
      }
      assert Indexed();
    }

    method RemoveWorker(node: AvlNode)
      requires Shape() && Indexed() && BalancedOutside(null, null, null) && node in nodes
      modifies this`root, this`nodes, this`leaders, nodes`parent, nodes`left, nodes`right, nodes`balance
      modifies nodes`pos, nodes`lo, nodes`hi, nodes`ht
      ensures Shape() && Indexed() && BalancedOutside(null, null, null)
      ensures nodes == old(nodes) - {node}
      ensures 0 <= old(node.pos) < |old(leaders)| && leaders == Without(old(leaders), old(node.pos))
      decreases if node.left != null && node.right != null then 1 else 0
    {
      hide BalancedOutside;
      if node.left == null {
        RemoveOuter(node, node.right);
        return;
      }
      if node.right == null {
        RemoveOuter(node, node.left);
        return;
      }
      assert Linked(node);
      var min := LocalMin(node.right);
      ghost var i := node.pos;
      RemoveWorker(min);
      assert leaders[i] == node;
      Supplant(node, min);
    }

    // ---------- the tree together with its ring ----------

    /** Each group of `g` is a leader followed by the nodes with its key; keys grow from group to group. */
    ghost predicate GroupsFit(g: seq<seq<AvlNode>>)
      reads this, ring
    {
      && |g| == |leaders| && ring == Flatten(g)
      && (forall i :: 0 <= i < |g| ==> |g[i]| > 0 && g[i][0] == leaders[i])
      && (forall i, j :: 0 <= i < |g| && 0 <= j < |g[i]| ==>
            g[i][j] in ring && g[i][j].follower == (j > 0) && g[i][j].key == leaders[i].key)
      && (forall i, j :: 0 <= i < j < |leaders| ==> leaders[i].key < leaders[j].key)
      && (!allowDups ==> forall i :: 0 <= i < |g| ==> |g[i]| == 1)
    }

    ghost predicate Grouped()
      reads this, ring
    {
      GroupsFit(groups)
    }

    ghost predicate Valid()
      reads this, nodes, ring, head
    {
      && Shape() && Indexed() && BalancedOutside(null, null, null)
      && Grouped() && Rings(head, ring) && count == |ring|
    }

    lemma RingSorted(a: int, b: int)
      requires Grouped() && 0 <= a <= b < |ring|
      ensures ring[a].key <= ring[b].key
    {
      var i, j := Locate(groups, a);
      var m, n := Locate(groups, b);
      if m < i {
        OffsetGrows(groups, m + 1, i);
        FlattenSplit(groups, m);
      }
    }

    /** The keys behind position `k` are larger than `key`. */
    lemma AllAbove(key: int, k: int)
      requires Grouped() && 0 <= k < |ring| && key < ring[k].key
      ensures forall i :: k <= i < |ring| ==> key < ring[i].key
    {
      forall i | k <= i < |ring|
        ensures key < ring[i].key
      {
        RingSorted(k, i);
      }
    }

    lemma AllBelow(key: int, k: int)
      requires Grouped() && 0 <= k < |ring| && ring[k].key < key
      ensures forall i :: 0 <= i <= k ==> ring[i].key < key
    {
      forall i | 0 <= i <= k
        ensures ring[i].key < key
      {
        RingSorted(i, k);
      }
    }

    lemma LeaderInRing(i: int)
      requires Grouped() && 0 <= i < |leaders|
      ensures 0 <= Offset(groups, i) < |ring| && ring[Offset(groups, i)] == leaders[i]
    {
      FlattenAt(groups, i, 0);
    }

    static function Compare(a: int, b: int): int
    {
      if a < b then -1 else if a == b then 0 else 1
    }

    method FindRec(node: AvlNode, key: int) returns (found: AvlNode, diff: int)
      requires Shape() && Indexed() && node in nodes
      requires forall i, j :: 0 <= i < j < |leaders| ==> leaders[i].key < leaders[j].key
      requires 0 <= node.lo <= node.hi <= |leaders|
      requires forall i :: 0 <= i < node.lo ==> leaders[i].key < key
      requires forall i :: node.hi <= i < |leaders| ==> key < leaders[i].key
      ensures found in nodes && diff == Compare(key, found.key)
      ensures diff < 0 ==> found.left == null
      ensures diff > 0 ==> found.right == null
      ensures forall i :: 0 <= i < found.pos ==> leaders[i].key < key
      ensures forall i :: found.pos < i < |leaders| ==> key < leaders[i].key
      decreases node.hi - node.lo
    {
      assert Linked(node) && leaders[node.pos] == node;
      diff := Compare(key, node.key);
      if diff < 0 {
        if node.left != null {
          assert Linked(node.left);
          found, diff := FindRec(node.left, key);
          return;
        }
        return node, diff;
      }
      if diff > 0 {
        if node.right != null {
          assert Linked(node.right);
          found, diff := FindRec(node.right, key);
          return;
        }
        return node, diff;
      }
      return node, diff;
    }

    method Find(key: int) returns (r: AvlNode?)
      requires Valid()
      ensures r == null <==> forall n :: n in ring ==> n.key != key
      ensures r != null ==> r.key == key && exists i :: 0 <= i < |leaders| && leaders[i] == r
    {
      if root == null {
        assert ring == [] by { EmptyRing(); }
        return null;
      }
      var node, diff := FindRec(root, key);
      if diff == 0 {
        assert leaders[node.pos] == node;
        LeaderInRing(node.pos);
        return node;
      }
      forall n | n in ring
        ensures n.key != key
      {
        var k :| 0 <= k < |ring| && ring[k] == n;
        var i, j := Locate(groups, k);
        assert leaders[node.pos] == node;
      }
      return null;
    }

    lemma FirstLeader()
      requires Indexed()
      ensures |leaders| > 0 ==> nodes != {}
    {
      assert |leaders| > 0 ==> leaders[0] in nodes;
    }

    lemma EmptyRing()
      requires Valid() && root == null
      ensures ring == []
    {
      FirstLeader();
    }

    /** The last element of `r` whose key is at most `key`, found by a scan from the end. */
    static ghost function LastAtMost(r: seq<AvlNode>, key: int): AvlNode?
    {
      if r == [] then null
      else if r[|r| - 1].key <= key then r[|r| - 1]
      else LastAtMost(r[..|r| - 1], key)
    }

    /** The first element of `r` whose key is at least `key`, found by a scan from the start. */
    static ghost function FirstAtLeast(r: seq<AvlNode>, key: int): AvlNode?
    {
      if r == [] then null
      else if r[0].key >= key then r[0]
      else FirstAtLeast(r[1..], key)
    }

    static lemma {:induction false} LastAtMostIs(r: seq<AvlNode>, key: int, k: int)
      requires -1 <= k < |r| && (k >= 0 ==> r[k].key <= key) && forall i :: k < i < |r| ==> key < r[i].key
      ensures LastAtMost(r, key) == if k < 0 then null else r[k]
    {
      if r != [] && k < |r| - 1 {
        LastAtMostIs(r[..|r| - 1], key, k);
      }
    }

    static lemma {:induction false} FirstAtLeastIs(r: seq<AvlNode>, key: int, k: int)
      requires 0 <= k <= |r| && (k < |r| ==> r[k].key >= key) && forall i :: 0 <= i < k ==> r[i].key < key
      ensures FirstAtLeast(r, key) == if k < |r| then r[k] else null
    {
      if k > 0 {
        FirstAtLeastIs(r[1..], key, k - 1);
      }
    }

    method FindLessEqual(key: int) returns (r: AvlNode?)
      requires Valid()
      ensures r == LastAtMost(ring, key)
    {
      if root == null {
        EmptyRing();
        return null;
      }
      var node, diff := FindRec(root, key);
      ghost var k := RingIndex(node);
      ghost var n;
      r, n := LessEqualFrom(node, diff, key, ring, k);
      LessEqualIs(key, n);
    }

    lemma LessEqualIs(key: int, n: int)
      requires Grouped() && -1 <= n < |ring|
      requires n >= 0 ==> ring[n].key <= key
      requires n < |ring| - 1 ==> key < ring[n + 1].key
      ensures LastAtMost(ring, key) == if n < 0 then null else ring[n]
    {
      if n < |ring| - 1 {
        AllAbove(key, n + 1);
      }
      LastAtMostIs(ring, key, n);
    }

    /** The two loops of the search: back while the key is smaller, then forward while the next key is not larger. */
    method LessEqualFrom(start: AvlNode, cmp: int, key: int, ghost r: seq<AvlNode>, ghost at: int)
      returns (res: AvlNode?, ghost n: int)
      requires Rings(head, r) && 0 <= at < |r| && r[at] == start && cmp == Compare(key, start.key)
      ensures -1 <= n < |r| && res == (if n < 0 then null else r[n])
      ensures n >= 0 ==> r[n].key <= key
      ensures n < |r| - 1 ==> key < r[n + 1].key
    {
      var node, diff := start, cmp;
      ghost var k := at;
      while diff < 0
        invariant 0 <= k < |r| && r[k] == node && diff == Compare(key, node.key)
        decreases k
      {
        Neighbours(head, r, k);
        if head.next == node {
          return null, -1;
        }
        node := node.prev;
        k := k - 1;
        diff := Compare(key, node.key);
      }
      var next := node;
      while diff >= 0
        invariant diff >= 0 ==> 0 <= k < |r| && r[k] == next && next.key <= key
        invariant diff < 0 ==> 0 < k < |r| && r[k - 1] == node && node.key <= key < r[k].key
        decreases if diff >= 0 then |r| - k else 0
      {
        node := next;
        Neighbours(head, r, k);
        if head.prev == node {
          return node, k;
        }
        next := node.next;
        k := k + 1;
        diff := Compare(key, next.key);
      }
      return node, k - 1;
    }

    method FindGreaterEqual(key: int) returns (r: AvlNode?)
      requires Valid()
      ensures r == FirstAtLeast(ring, key)
    {
      if root == null {
        EmptyRing();
        return null;
      }
      var node, diff := FindRec(root, key);
      ghost var k := RingIndex(node);
      ghost var n;
      r, n := GreaterEqualFrom(node, diff, key, ring, k);
      GreaterEqualIs(key, n);
    }

    lemma GreaterEqualIs(key: int, n: int)
      requires Grouped() && 0 <= n <= |ring|
      requires n < |ring| ==> key <= ring[n].key
      requires 0 < n ==> ring[n - 1].key < key
      ensures FirstAtLeast(ring, key) == if n < |ring| then ring[n] else null
    {
      if 0 < n {
        AllBelow(key, n - 1);
      }
      FirstAtLeastIs(ring, key, n);
    }

    /** The two loops of the search: forward while the key is larger, then back while the next key is not smaller. */
    method GreaterEqualFrom(start: AvlNode, cmp: int, key: int, ghost r: seq<AvlNode>, ghost at: int)
      returns (res: AvlNode?, ghost n: int)
      requires Rings(head, r) && 0 <= at < |r| && r[at] == start && cmp == Compare(key, start.key)
      ensures 0 <= n <= |r| && res == (if n < |r| then r[n] else null)
      ensures n < |r| ==> key <= r[n].key
      ensures 0 < n ==> r[n - 1].key < key
    {
      var node, diff := start, cmp;
      ghost var k := at;
      while diff > 0
        invariant 0 <= k < |r| && r[k] == node && diff == Compare(key, node.key)
        decreases |r| - k
      {
        Neighbours(head, r, k);
        if head.prev == node {
          return null, |r|;
        }
        node := node.next;
        k := k + 1;
        diff := Compare(key, node.key);
      }
      var next := node;
      while diff <= 0
        invariant diff <= 0 ==> 0 <= k < |r| && r[k] == next && key <= next.key
        invariant diff > 0 ==> -1 <= k < |r| - 1 && r[k + 1] == node && key <= node.key && 0 <= k && r[k].key < key
        decreases if diff <= 0 then k + 1 else 0
      {
        node := next;
        Neighbours(head, r, k);
        if head.next == node {
          return node, k;
        }
        next := node.prev;
        k := k - 1;
        diff := Compare(key, next.key);
      }
      return node, k + 1;
    }

    lemma RingIndex(leader: AvlNode) returns (k: int)
      requires Grouped() && Indexed() && leader in nodes
      ensures 0 <= k < |ring| && ring[k] == leader && k == Offset(groups, leader.pos)
    {
      assert leaders[leader.pos] == leader;
      LeaderInRing(leader.pos);
      k := Offset(groups, leader.pos);
    }

    lemma NodesInRing()
      requires Grouped() && Indexed()
      ensures forall n :: n in nodes ==> n in ring
    {
      forall n | n in nodes
        ensures n in ring
      {
        LeaderInRing(n.pos);
      }
    }

    /** Nothing the tree part looks at changed. */
    twostate lemma TreeUntouched()
      requires old(Shape()) && old(Indexed()) && old(BalancedOutside(null, null, null))
      requires nodes == old(nodes) && leaders == old(leaders) && root == old(root)
      requires forall m :: m in old(nodes) ==>
                 && m.left == old(m.left) && m.right == old(m.right) && m.parent == old(m.parent)
                 && m.pos == old(m.pos) && m.lo == old(m.lo) && m.hi == old(m.hi)
                 && m.balance == old(m.balance) && m.ht == old(m.ht)
      ensures Shape() && Indexed() && BalancedOutside(null, null, null)
    {
      forall m | m in nodes
        ensures Linked(m) && Fine(m)
      {
        assert old(Linked(m)) && old(Fine(m));
      }
    }

    /** Nothing the ring part looks at changed. */
    twostate lemma RingUntouched(r: seq<AvlNode>)
      requires old(Rings(head, r))
      requires head.next == old(head.next) && head.prev == old(head.prev)
      requires forall m :: m in r ==> m.next == old(m.next) && m.prev == old(m.prev)
      ensures Rings(head, r)
    {
      forall i | 0 <= i <= |r|
        ensures Edge(head, r, i)
      {
        assert old(Edge(head, r, i));
      }
    }

    /** Only objects outside the tree changed. */
    twostate lemma Untouched()
      requires old(Valid())
      requires nodes == old(nodes) && leaders == old(leaders) && root == old(root) && ring == old(ring) && groups == old(groups)
      requires count == old(count) && head.next == old(head.next) && head.prev == old(head.prev)
      requires forall m :: m in ring ==>
                 && m.left == old(m.left) && m.right == old(m.right) && m.parent == old(m.parent)
                 && m.pos == old(m.pos) && m.lo == old(m.lo) && m.hi == old(m.hi)
                 && m.balance == old(m.balance) && m.ht == old(m.ht) && m.follower == old(m.follower)
                 && m.next == old(m.next) && m.prev == old(m.prev)
      ensures Valid()
    {
      OldNodesInRing();
      TreeUntouched();
      RingUntouched(ring);
    }

    twostate lemma OldNodesInRing()
      requires old(Valid())
      ensures forall n :: n in old(nodes) ==> n in old(ring)
    {
      forall n | n in old(nodes)
        ensures n in old(ring)
      {
        assert old(leaders)[old(n.pos)] == n;
        assert old(groups)[old(n.pos)][0] == n;
      }
    }

    method FindLast(leader: AvlNode, ghost i: int) returns (last: AvlNode)
      requires Grouped() && Rings(head, ring) && 0 <= i < |groups| && groups[i][0] == leader
      ensures last == groups[i][|groups[i]| - 1] && 0 < Offset(groups, i + 1) <= |ring| && ring[Offset(groups, i + 1) - 1] == last
    {
      last := leader;
      FlattenSplit(groups, i);
      ghost var j := 0;
      FlattenAt(groups, i, 0);
      while true
        invariant 0 <= j < |groups[i]| && last == groups[i][j]
        invariant 0 <= Offset(groups, i) + j < |ring| && ring[Offset(groups, i) + j] == last
        decreases |groups[i]| - j
      {
        hide Rings, Grouped, Offset;
        NextInGroup(i, j);
        if head.prev == last {
          return;
        }
        var next := last.next;
        if !next.follower {
          return;
        }
        last := next;
        j := j + 1;
      }
    }

    /** Following the ring inside a group: the group ends at the last node of the ring or where no follower comes next. */
    lemma NextInGroup(i: int, j: int)
      requires Grouped() && Rings(head, ring) && 0 <= i < |groups| && 0 <= j < |groups[i]|
      ensures 0 <= Offset(groups, i) + j < |ring| && ring[Offset(groups, i) + j] == groups[i][j]
      ensures var n := groups[i][j];
              if head.prev == n then j == |groups[i]| - 1
              else
                n.next != null
                && if !n.next.follower then j == |groups[i]| - 1
                   else j + 1 < |groups[i]| && Offset(groups, i) + j + 1 < |ring| && n.next == groups[i][j + 1] == ring[Offset(groups, i) + j + 1]
    {
      FlattenAt(groups, i, j);
      Neighbours(head, ring, Offset(groups, i) + j);
      LastOfGroup(i, j);
    }

    /** The node behind place `j` of group `i` is a follower exactly when it belongs to the group. */
    lemma LastOfGroup(i: int, j: int)
      requires Grouped() && 0 <= i < |groups| && 0 <= j < |groups[i]|
      ensures 0 <= Offset(groups, i) + j < |ring|
      ensures j < |groups[i]| - 1 ==>
                Offset(groups, i) + j < |ring| - 1 && ring[Offset(groups, i) + j + 1] == groups[i][j + 1]
                && ring[Offset(groups, i) + j + 1].follower
      ensures j == |groups[i]| - 1 && Offset(groups, i) + j < |ring| - 1 ==>
                i < |groups| - 1 && ring[Offset(groups, i) + j + 1] == groups[i + 1][0]
                && !ring[Offset(groups, i) + j + 1].follower
    {
      FlattenAt(groups, i, j);
      if j < |groups[i]| - 1 {
        FlattenAt(groups, i, j + 1);
      } else {
        FlattenSplit(groups, i);
        if i < |groups| - 1 {
          FlattenAt(groups, i + 1, 0);
        } else {
          assert groups[..i + 1] == groups;
        }
      }
    }

    method RingInsertBefore(at: AvlNode, node: AvlNode)
      requires Valid() && at in nodes && node !in ring && node != head
      modifies this`count, this`ring, head`next, head`prev, ring`next, ring`prev, node`next, node`prev
      ensures 0 <= Offset(groups, at.pos) <= |old(ring)| && 0 <= at.pos < |groups|
      ensures ring == Inserted(old(ring), Offset(groups, at.pos), node) && count == |ring|
      ensures Rings(head, ring) && Shape() && Indexed() && BalancedOutside(null, null, null)
    {
      ghost var k := RingIndex(at);
      NodesInRing();
      AddBefore(at, node, head, ring, k);
      ring := Inserted(ring, k, node);
      count := count + 1;
      TreeUntouched();
    }

    method RingInsertAfter(at: AvlNode, node: AvlNode, ghost k: int)
      requires Valid() && node !in ring && node != head && 0 < k <= |ring| && ring[k - 1] == at
      modifies this`count, this`ring, head`next, head`prev, ring`next, ring`prev, node`next, node`prev
      ensures ring == Inserted(old(ring), k, node) && count == |ring|
      ensures Rings(head, ring) && Shape() && Indexed() && BalancedOutside(null, null, null)
    {
      NodesInRing();
      AddAfter(at, node, head, ring, k);
      ring := Inserted(ring, k, node);
      count := count + 1;
      TreeUntouched();
    }

    /** Puts `node` into the ring behind the last follower of `at`. */
    method RingInsertBehind(at: AvlNode, node: AvlNode)
      requires Valid() && at in nodes && node !in ring && node != head
      modifies this`count, this`ring, head`next, head`prev, ring`next, ring`prev, node`next, node`prev
      ensures 0 <= at.pos < |groups| && 0 <= Offset(groups, at.pos + 1) <= |old(ring)|
      ensures ring == Inserted(old(ring), Offset(groups, at.pos + 1), node) && count == |ring|
      ensures Rings(head, ring) && Shape() && Indexed() && BalancedOutside(null, null, null)
    {
      assert leaders[at.pos] == at;
      var last := FindLast(at, at.pos);
      RingInsertAfter(last, node, Offset(groups, at.pos + 1));
    }

    /** How many groups have a smaller key. */
    static ghost function Rank(g: seq<seq<AvlNode>>, key: int): (r: int)
      ensures 0 <= r <= |g|
    {
      if g == [] || g[0] == [] || key <= g[0][0].key then 0 else 1 + Rank(g[1..], key)
    }

    static ghost predicate Holds(g: seq<seq<AvlNode>>, key: int)
    {
      exists i :: 0 <= i < |g| && g[i] != [] && g[i][0].key == key
    }

    /** `g` with `x` in its place: right behind the leader of its key, or in a new group in key order. */
    static ghost function Added(g: seq<seq<AvlNode>>, x: AvlNode): seq<seq<AvlNode>>
    {
      var i := Rank(g, x.key);
      if i < |g| && g[i] != [] && g[i][0].key == x.key then g[i := Inserted(g[i], 1, x)]
      else Inserted(g, i, [x])
    }

    static lemma {:induction false} RankIs(g: seq<seq<AvlNode>>, key: int, i: int)
      requires 0 <= i <= |g| && (forall j :: 0 <= j < |g| ==> g[j] != [])
      requires forall j :: 0 <= j < i ==> g[j][0].key < key
      requires i < |g| ==> key <= g[i][0].key
      ensures Rank(g, key) == i
    {
      if i > 0 {
        forall j | 0 <= j < |g| - 1
          ensures g[1..][j] != []
        {
        }
        RankIs(g[1..], key, i - 1);
      }
    }

    /** Node `node` was put into the tree and the ring where group `i` shall begin; the groups are still the old ones. */
    twostate predicate NewGroup(node: AvlNode, new i: int)
      reads *
    {
      && old(Grouped()) && old(groups) == groups && node !in old(ring) && 0 <= i <= |groups| && 0 <= Offset(groups, i) <= |old(ring)|
      && leaders == Inserted(old(leaders), i, node) && ring == Inserted(old(ring), Offset(groups, i), node)
      && !node.follower && (forall n :: n in old(ring) ==> n.follower == old(n.follower))
      && (forall j :: 0 <= j < i ==> old(leaders)[j].key < node.key)
      && (forall j :: i <= j < |old(leaders)| ==> node.key < old(leaders)[j].key)
    }

    /** A node became a group of its own. */
    twostate lemma GroupGained(node: AvlNode, new i: int)
      requires NewGroup(node, i)
      ensures Inserted(groups, i, [node]) == Added(groups, node) && !Holds(groups, node.key)
      ensures GroupsFit(Inserted(groups, i, [node]))
    {
      RankIs(groups, node.key, i);
      GainedFits(node, i);
    }

    twostate lemma GainedFits(node: AvlNode, new i: int)
      requires NewGroup(node, i)
      ensures GroupsFit(Inserted(groups, i, [node]))
    {
      FlattenNewGroup(groups, i, node);
      RingGained(Offset(groups, i), node);
      assert |groups| == |old(leaders)|;
      hide Grouped, Offset;
      var g := Inserted(groups, i, [node]);
      forall a | 0 <= a < |g|
        ensures |g[a]| > 0 && g[a][0] == leaders[a] && (!allowDups ==> |g[a]| == 1)
      {
        GainedHead(node, i, a);
      }
      forall a, j | 0 <= a < |g| && 0 <= j < |g[a]|
        ensures g[a][j] in ring && g[a][j].follower == (j > 0) && g[a][j].key == leaders[a].key
      {
        GainedMember(node, i, a, j);
      }
      forall a, b | 0 <= a < b < |leaders|
        ensures leaders[a].key < leaders[b].key
      {
        GainedOrder(node, i, a, b);
      }
    }

    twostate lemma GainedHead(node: AvlNode, new i: int, new a: int)
      requires NewGroup(node, i)
      requires 0 <= a <= |groups|
      ensures var h := Inserted(groups, i, [node])[a]; |h| > 0 && h[0] == leaders[a] && (!allowDups ==> |h| == 1)
    {
    }

    twostate lemma GainedMember(node: AvlNode, new i: int, new a: int, new j: int)
      requires NewGroup(node, i)
      requires forall n :: n in old(ring) || n == node ==> n in ring
      requires 0 <= a <= |groups| && 0 <= j < |Inserted(groups, i, [node])[a]|
      ensures var n := Inserted(groups, i, [node])[a][j]; n in ring && n.follower == (j > 0) && n.key == leaders[a].key
    {
      if a != i {
        var was := if a < i then a else a - 1;
        assert Inserted(groups, i, [node])[a] == groups[was] && leaders[a] == old(leaders)[was];
        assert groups[was][j] in old(ring);
      }
    }

    static lemma GainedKeys(l: seq<AvlNode>, node: AvlNode, i: int, a: int, b: int)
      requires 0 <= i <= |l| && 0 <= a < b <= |l|
      requires forall i, j :: 0 <= i < j < |l| ==> l[i].key < l[j].key
      requires forall j :: 0 <= j < i ==> l[j].key < node.key
      requires forall j :: i <= j < |l| ==> node.key < l[j].key
      ensures Inserted(l, i, node)[a].key < Inserted(l, i, node)[b].key
    {
    }

    twostate lemma GainedOrder(node: AvlNode, new i: int, new a: int, new b: int)
      requires NewGroup(node, i)
      requires 0 <= a < b < |leaders|
      ensures leaders[a].key < leaders[b].key
    {
      GainedKeys(old(leaders), node, i, a, b);
    }

    twostate lemma RingGained(k: int, new node: AvlNode)
      requires 0 <= k <= |old(ring)| && ring == Inserted(old(ring), k, node)
      ensures forall n :: n in old(ring) || n == node ==> n in ring
    {
      forall n | n in old(ring) || n == node
        ensures n in ring
      {
        if n in old(ring) {
          var m :| 0 <= m < |old(ring)| && old(ring)[m] == n;
          assert ring[if m < k then m else m + 1] == n;
        } else {
          assert ring[k] == node;
        }
      }
    }

    /** A node became a follower of leader `i`. */
    twostate lemma FollowerGained(node: AvlNode, new i: int)
      requires old(Grouped()) && old(groups) == groups && node !in old(ring) && 0 <= i < |groups| && allowDups
      requires 0 <= Offset(groups, i) < |old(ring)|
      requires leaders == old(leaders) && ring == Inserted(old(ring), Offset(groups, i) + 1, node)
      requires node.follower && forall n :: n in old(ring) ==> n.follower == old(n.follower)
      requires node.key == leaders[i].key
      ensures groups[i := Inserted(groups[i], 1, node)] == Added(groups, node) && Holds(groups, node.key)
      ensures GroupsFit(groups[i := Inserted(groups[i], 1, node)])
    {
      FlattenGrownGroup(groups, i, 1, node);
      RankIs(groups, node.key, i);
      assert groups[i][0].key == node.key;
      RingGained(Offset(groups, i) + 1, node);
    }

    ghost method Regroup(g: seq<seq<AvlNode>>)
      requires Shape() && Indexed() && BalancedOutside(null, null, null)
      requires GroupsFit(g) && Rings(head, ring) && count == |ring|
      modifies this`groups
      ensures Valid() && groups == g
    {
      groups := g;
      TreeUntouched();
    }

    lemma EmptyGroups()
      requires Grouped() && ring == []
      ensures groups == [] && leaders == []
    {
      if |groups| > 0 {
        FlattenAt(groups, 0, 0);
      }
    }

    static lemma SingleGroup(node: AvlNode)
      ensures Inserted([], 0, node) == [node] && Flatten([[node]]) == [node]
      ensures Added([], node) == [[node]] && !Holds([], node.key)
    {
      assert Inserted<AvlNode>([], 0, node) == [node] && Inserted<seq<AvlNode>>([], 0, [node]) == [[node]];
      assert Flatten([[node]]) == [node] + Flatten([[node]][1..]);
    }

    method PlantFirst(node: AvlNode)
      requires node.left == null && node.right == null && node.parent == null && node.balance == 0
      modifies this`root, this`nodes, this`leaders, node`pos, node`lo, node`hi, node`ht
      ensures Shape() && Indexed() && BalancedOutside(null, null, null) && leaders == [node] && nodes == {node}
    {
      root := node;
      nodes, leaders := {node}, [node];
      node.pos, node.lo, node.hi, node.ht := 0, 0, 1, 1;
    }

    method InsertFirst(node: AvlNode)
      requires Valid() && root == null && node != head && node.left == null && node.right == null && node.parent == null
      requires node.balance == 0 && !node.follower
      modifies this`root, this`count, this`nodes, this`leaders, this`ring, this`groups, head`next, head`prev
      modifies node`next, node`prev, node`pos, node`lo, node`hi, node`ht
      ensures Valid() && groups == Added(old(groups), node) && !Holds(old(groups), node.key) && ring == [node]
    {
      EmptyRing();
      EmptyGroups();
      SingleGroup(node);
      AddAfter(head, node, head, ring, 0);
      ring, count := [node], 1;
      label Ringed:
      PlantFirst(node);
      RingUntouched@Ringed(ring);
      assert ring[0] in ring;
      Regroup([[node]]);
    }

    method InsertFollower(at: AvlNode, node: AvlNode)
      requires Valid() && at in nodes && node !in ring && node != head && at.key == node.key && allowDups
      modifies this`count, this`ring, this`groups, head`next, head`prev, ring`next, ring`prev, node`next, node`prev, node`follower
      ensures Valid() && groups == Added(old(groups), node) && Holds(old(groups), node.key)
    {
      assert leaders[at.pos] == at;
      ghost var i := at.pos;
      ghost var k := RingIndex(at);
      node.follower := true;
      Untouched();
      RingInsertAfter(at, node, k + 1);
      FollowerGained(node, i);
      Regroup(groups[i := Inserted(groups[i], 1, node)]);
    }

    /** Hangs `node` below `at` and rebalances. */
    method TreeInsertLeft(at: AvlNode, node: AvlNode)
      requires Shape() && Indexed() && BalancedOutside(null, null, null) && at in nodes && node !in nodes && at.left == null
      requires node.left == null && node.right == null && node.balance == 0
      modifies this`root, this`nodes, this`leaders, nodes`parent, nodes`left, nodes`right, nodes`balance
      modifies nodes`pos, nodes`lo, nodes`hi, nodes`ht
      modifies node`parent, node`left, node`right, node`balance, node`pos, node`lo, node`hi, node`ht
      ensures Shape() && Indexed() && BalancedOutside(null, null, null) && nodes == old(nodes) + {node}
      ensures 0 <= old(at.pos) <= |old(leaders)| && leaders == Inserted(old(leaders), old(at.pos), node)
    {
      var filled := at.balance == 1;
      AttachLeft(at, node);
      if filled {
        Stamp(at, 0, at.ht);
        assert Linked(at) && Fine(at);
        SettledAbove(at);
      } else {
        Stamp(at, -1, at.ht + 1);
        assert Linked(at) && Fine(at);
        PostInsert(at);
      }
    }

    method LinkLeft(at: AvlNode, node: AvlNode, ghost i: int)
      requires Valid() && at in nodes && node !in ring && node != head && at.left == null && i == at.pos
      requires node.left == null && node.right == null && node.balance == 0
      modifies this`root, this`count, this`nodes, this`leaders, this`ring, head`next, head`prev
      modifies node`next, node`prev, node`parent, node`left, node`right, node`balance
      modifies node`pos, node`lo, node`hi, node`ht
      modifies ring`next, ring`prev, nodes`parent, nodes`left, nodes`right, nodes`balance, nodes`pos, nodes`lo, nodes`hi, nodes`ht
      ensures Shape() && Indexed() && BalancedOutside(null, null, null) && Rings(head, ring) && count == |ring|
      ensures 0 <= i <= |groups| == |old(leaders)| && leaders == Inserted(old(leaders), i, node)
      ensures 0 <= Offset(groups, i) <= |old(ring)| && ring == Inserted(old(ring), Offset(groups, i), node)
    {
      LeadersLead();
      RingInsertBefore(at, node);
      label Ringed:
      TreeInsertLeft(at, node);
      RingUntouched@Ringed(ring);
    }

    method InsertLeft(at: AvlNode, node: AvlNode)
      requires Valid() && at in nodes && node !in ring && node != head && at.left == null
      requires node.left == null && node.right == null && node.balance == 0 && !node.follower
      requires forall j :: 0 <= j < at.pos ==> leaders[j].key < node.key
      requires forall j :: at.pos <= j < |leaders| ==> node.key < leaders[j].key
      modifies this, head`next, head`prev, node`next, node`prev, node`parent, node`left, node`right, node`balance
      modifies node`pos, node`lo, node`hi, node`ht
      modifies ring`next, ring`prev, nodes`parent, nodes`left, nodes`right, nodes`balance, nodes`pos, nodes`lo, nodes`hi, nodes`ht
      ensures Valid() && groups == Added(old(groups), node) && !Holds(old(groups), node.key)
    {
      ghost var i := at.pos;
      LinkLeft(at, node, i);
      GroupGained(node, i);
      Regroup(Inserted(groups, i, [node]));
    }

    /** Hangs `node` below `at` and rebalances. */
    method TreeInsertRight(at: AvlNode, node: AvlNode)
      requires Shape() && Indexed() && BalancedOutside(null, null, null) && at in nodes && node !in nodes && at.right == null
      requires node.left == null && node.right == null && node.balance == 0
      modifies this`root, this`nodes, this`leaders, nodes`parent, nodes`left, nodes`right, nodes`balance
      modifies nodes`pos, nodes`lo, nodes`hi, nodes`ht
      modifies node`parent, node`left, node`right, node`balance, node`pos, node`lo, node`hi, node`ht
      ensures Shape() && Indexed() && BalancedOutside(null, null, null) && nodes == old(nodes) + {node}
      ensures 0 <= old(at.pos) + 1 <= |old(leaders)| && leaders == Inserted(old(leaders), old(at.pos) + 1, node)
    {
      var filled := at.balance == -1;
      AttachRight(at, node);
      if filled {
        Stamp(at, 0, at.ht);
        assert Linked(at) && Fine(at);
        SettledAbove(at);
      } else {
        Stamp(at, 1, at.ht + 1);
        assert Linked(at) && Fine(at);
        PostInsert(at);
      }
    }

    method LinkRight(at: AvlNode, node: AvlNode, ghost i: int)
      requires Valid() && at in nodes && node !in ring && node != head && at.right == null && i == at.pos + 1
      requires node.left == null && node.right == null && node.balance == 0
      modifies this`root, this`count, this`nodes, this`leaders, this`ring, head`next, head`prev
      modifies node`next, node`prev, node`parent, node`left, node`right, node`balance
      modifies node`pos, node`lo, node`hi, node`ht
      modifies ring`next, ring`prev, nodes`parent, nodes`left, nodes`right, nodes`balance, nodes`pos, nodes`lo, nodes`hi, nodes`ht
      ensures Shape() && Indexed() && BalancedOutside(null, null, null) && Rings(head, ring) && count == |ring|
      ensures 0 <= i <= |groups| == |old(leaders)| && leaders == Inserted(old(leaders), i, node)
      ensures 0 <= Offset(groups, i) <= |old(ring)| && ring == Inserted(old(ring), Offset(groups, i), node)
    {
      LeadersLead();
      RingInsertBehind(at, node);
      label Ringed:
      TreeInsertRight(at, node);
      RingUntouched@Ringed(ring);
    }

    method InsertRight(at: AvlNode, node: AvlNode)
      requires Valid() && at in nodes && node !in ring && node != head && at.right == null
      requires node.left == null && node.right == null && node.balance == 0 && !node.follower
      requires at.pos < |leaders| && forall j :: 0 <= j < at.pos + 1 ==> leaders[j].key < node.key
      requires forall j :: at.pos + 1 <= j < |leaders| ==> node.key < leaders[j].key
      modifies this, head`next, head`prev, node`next, node`prev, node`parent, node`left, node`right, node`balance
      modifies node`pos, node`lo, node`hi, node`ht
      modifies ring`next, ring`prev, nodes`parent, nodes`left, nodes`right, nodes`balance, nodes`pos, nodes`lo, nodes`hi, nodes`ht
      ensures Valid() && groups == Added(old(groups), node) && !Holds(old(groups), node.key)
    {
      ghost var i := at.pos + 1;
      LinkRight(at, node, i);
      GroupGained(node, i);
      Regroup(Inserted(groups, i, [node]));
    }

    method Reset(node: AvlNode)
      requires Valid() && node !in ring && node != head
      modifies node`parent, node`left, node`right, node`balance, node`follower
      ensures Valid()
      ensures node.parent == null && node.left == null && node.right == null && node.balance == 0 && !node.follower
    {
      node.parent := null;
      node.left := null;
      node.right := null;
      node.balance := 0;
      node.follower := false;
      Untouched();
    }

    method InsertAt(at: AvlNode, diff: int, node: AvlNode)
      requires Valid() && at in nodes && node !in ring && node != head
      requires node.left == null && node.right == null && node.balance == 0 && !node.follower
      requires diff == Compare(node.key, at.key) != 0
      requires diff < 0 ==> at.left == null
      requires diff > 0 ==> at.right == null
      requires at.pos < |leaders| && forall j :: 0 <= j < at.pos ==> leaders[j].key < node.key
      requires forall j :: at.pos < j < |leaders| ==> node.key < leaders[j].key
      modifies this, head`next, head`prev, node`next, node`prev, node`parent, node`left, node`right, node`balance
      modifies node`pos, node`lo, node`hi, node`ht
      modifies ring`next, ring`prev, nodes`parent, nodes`left, nodes`right, nodes`balance, nodes`pos, nodes`lo, nodes`hi, nodes`ht
      ensures Valid() && groups == Added(old(groups), node) && !Holds(old(groups), node.key)
    {
      assert leaders[at.pos] == at;
      if diff < 0 {
        InsertLeft(at, node);
      } else {
        InsertRight(at, node);
      }
    }

    method Place(node: AvlNode) returns (result: int)
      requires Valid() && node !in ring && node != head && root != null
      requires node.left == null && node.right == null && node.balance == 0 && !node.follower
      modifies this, head`next, head`prev, node`next, node`prev, node`parent, node`left, node`right, node`balance, node`follower
      modifies node`pos, node`lo, node`hi, node`ht
      modifies ring`next, ring`prev, ring`parent, ring`left, ring`right, ring`balance, ring`pos, ring`lo, ring`hi, ring`ht
      ensures Valid()
      ensures result == if Holds(old(groups), node.key) && !allowDups then -1 else 0
      ensures result == -1 ==> groups == old(groups) && ring == old(ring)
      ensures result == 0 ==> groups == Added(old(groups), node)
    {
      NodesInRing();
      var at, diff := FindRec(root, node.key);
      if diff != 0 {
        InsertAt(at, diff, node);
        return 0;
      }
      HoldsLeader(at);
      if !allowDups {
        return -1;
      }
      InsertFollower(at, node);
      return 0;
    }

    /** Refuses the node, with -1, exactly when its key is there and duplicates are off. */
    method Insert(node: AvlNode) returns (result: int)
      requires Valid() && node !in ring && node != head
      modifies this, head`next, head`prev, node`next, node`prev, node`parent, node`left, node`right, node`balance, node`follower
      modifies node`pos, node`lo, node`hi, node`ht
      modifies ring`next, ring`prev, ring`parent, ring`left, ring`right, ring`balance, ring`pos, ring`lo, ring`hi, ring`ht
      ensures Valid()
      ensures result == if Holds(old(groups), node.key) && !allowDups then -1 else 0
      ensures result == -1 ==> groups == old(groups) && ring == old(ring)
      ensures result == 0 ==> groups == Added(old(groups), node)
    {
      Reset(node);
      if root == null {
        InsertFirst(node);
        return 0;
      }
      result := Place(node);
    }

    lemma HoldsLeader(at: AvlNode)
      requires Grouped() && Indexed() && at in nodes
      ensures Holds(groups, at.key)
    {
      assert leaders[at.pos] == at;
      assert groups[at.pos][0].key == at.key;
    }

    /** Where a member of the ring stands. */
    lemma PlaceOf(node: AvlNode) returns (i: int, j: int)
      requires Grouped() && Distinct(head, ring) && node in ring
      ensures 0 <= i < |groups| && 0 <= j < |groups[i]| && groups[i][j] == node && node.follower == (j > 0)
      ensures 0 <= Offset(groups, i) + j < |ring| && ring[Offset(groups, i) + j] == node
      ensures Removed(groups, node) == if |groups[i]| == 1 then Without(groups, i) else groups[i := Without(groups[i], j)]
      ensures Minus(ring, node) == Without(ring, Offset(groups, i) + j)
    {
      var k :| 0 <= k < |ring| && ring[k] == node;
      i, j := Locate(groups, k);
      MinusAt(ring, k);
      forall m, n | 0 <= m < |groups| && 0 <= n < |groups[m]| && groups[m][n] == node
        ensures m == i && n == j
      {
        if m != i || n != j {
          DistinctPlaces(groups, m, n, i, j);
        }
      }
      RemovedAt(groups, i, j);
    }

    method RingRemove(node: AvlNode, ghost k: int)
      requires Shape() && Indexed() && BalancedOutside(null, null, null)
      requires Rings(head, ring) && count == |ring| && 0 <= k < |ring| && ring[k] == node
      requires forall n :: n in nodes ==> n in ring
      modifies this`count, this`ring, head`next, head`prev, ring`next, ring`prev
      ensures ring == Without(old(ring), k) && count == |ring| && Rings(head, ring)
      ensures Shape() && Indexed() && BalancedOutside(null, null, null)
      ensures node.next == null && node.prev == null
    {
      ListRemove(node, head, ring, k);
      ring := Without(ring, k);
      count := count - 1;
      TreeUntouched();
    }

    /** Place `j` of group `i` left the ring, and the next node took over if it was the leader; the groups are still the old ones. */
    twostate predicate OneLess(i: int, new j: int)
      reads *
    {
      && old(Grouped()) && old(Distinct(head, ring)) && groups == old(groups)
      && 0 <= i < |groups| && 0 <= j < |groups[i]| && |groups[i]| > 1 && 0 <= Offset(groups, i) + j < |old(ring)|
      && ring == Without(old(ring), Offset(groups, i) + j)
      && (leaders == if j == 0 then old(leaders)[i := groups[i][1]] else old(leaders))
      && (forall n :: n in old(ring) ==> n.follower == (if j == 0 && n == groups[i][1] then false else old(n.follower)))
    }

    /** Group `i` lost its place `j` but still has a node. */
    twostate lemma GroupShrunk(i: int, new j: int)
      requires OneLess(i, j)
      ensures GroupsFit(groups[i := Without(groups[i], j)])
    {
      var g := groups[i := Without(groups[i], j)];
      FlattenShrunkGroup(groups, i, j);
      forall a | 0 <= a < |g|
        ensures leaders[a].key == old(leaders)[a].key && |g[a]| > 0 && g[a][0] == leaders[a]
      {
        ShrunkKey(i, j, a);
      }
      forall a, b | 0 <= a < b < |leaders|
        ensures leaders[a].key < leaders[b].key
      {
        assert old(leaders)[a].key < old(leaders)[b].key;
      }
      forall a, b | 0 <= a < |g| && 0 <= b < |g[a]|
        ensures g[a][b] in ring && g[a][b].follower == (b > 0) && g[a][b].key == leaders[a].key
      {
        ShrunkMember(i, j, a, b);
      }
    }

    twostate lemma ShrunkMember(i: int, new j: int, new a: int, new b: int)
      requires OneLess(i, j)
      requires ring == Flatten(groups[i := Without(groups[i], j)])
      requires 0 <= a < |groups| && 0 <= b < |groups[i := Without(groups[i], j)][a]|
      ensures var n := groups[i := Without(groups[i], j)][a][b]; n in ring && n.follower == (b > 0) && n.key == leaders[a].key
    {
      FlattenAt(groups[i := Without(groups[i], j)], a, b);
      if a != i {
        ShrunkElsewhere(i, j, a, b);
      } else {
        ShrunkHere(i, j, b);
      }
    }

    twostate lemma ShrunkKey(i: int, new j: int, new a: int)
      requires OneLess(i, j)
      requires 0 <= a < |groups|
      ensures leaders[a].key == old(leaders)[a].key
      ensures var h := groups[i := Without(groups[i], j)][a]; |h| > 0 && h[0] == leaders[a]
    {
      assert groups[i][1].key == old(leaders)[i].key;
    }

    twostate lemma ShrunkElsewhere(i: int, new j: int, new a: int, new b: int)
      requires OneLess(i, j)
      requires 0 <= a < |groups| && a != i && 0 <= b < |groups[a]|
      ensures groups[a][b].follower == (b > 0) && groups[a][b].key == leaders[a].key
    {
      DistinctPlaces(groups, a, b, i, 1);
      assert groups[a][b] in old(ring);
    }

    twostate lemma ShrunkHere(i: int, new j: int, new b: int)
      requires OneLess(i, j)
      requires 0 <= b < |groups[i]| - 1
      ensures var n := Without(groups[i], j)[b]; n.follower == (b > 0) && n.key == leaders[i].key
    {
      var was := if b < j then b else b + 1;
      assert Without(groups[i], j)[b] == groups[i][was] && groups[i][was] in old(ring);
      if was != 1 {
        DistinctPlaces(groups, i, was, i, 1);
      }
      assert groups[i][1].key == old(leaders)[i].key;
    }

    /** The only node of group `i` left tree and ring; the groups are still the old ones. */
    twostate predicate NoneLeft(i: int)
      reads *
    {
      && old(Grouped()) && groups == old(groups)
      && 0 <= i < |groups| && |groups[i]| == 1 && 0 <= Offset(groups, i) < |old(ring)|
      && ring == Without(old(ring), Offset(groups, i)) && leaders == Without(old(leaders), i)
      && (forall n :: n in old(ring) ==> n.follower == old(n.follower))
    }

    /** Group `i`, of a single node, is gone. */
    twostate lemma GroupLost(i: int)
      requires NoneLeft(i)
      ensures GroupsFit(Without(groups, i))
    {
      var g := Without(groups, i);
      FlattenLostGroup(groups, i);
      forall a | 0 <= a < |g|
        ensures |g[a]| > 0 && g[a][0] == leaders[a] && (!allowDups ==> |g[a]| == 1)
      {
        LostHead(i, a);
      }
      forall a, b | 0 <= a < |g| && 0 <= b < |g[a]|
        ensures g[a][b] in ring && g[a][b].follower == (b > 0) && g[a][b].key == leaders[a].key
      {
        LostMember(i, a, b);
      }
      forall a, b | 0 <= a < b < |leaders|
        ensures leaders[a].key < leaders[b].key
      {
        LostHead(i, a);
        LostHead(i, b);
      }
    }

    twostate lemma LostHead(i: int, new a: int)
      requires NoneLeft(i)
      requires 0 <= a < |groups| - 1
      ensures var was := if a < i then a else a + 1;
              Without(groups, i)[a] == groups[was] && leaders[a] == old(leaders)[was] && groups[was] != [] && groups[was][0] == leaders[a]
    {
    }

    twostate lemma LostMember(i: int, new a: int, new b: int)
      requires NoneLeft(i)
      requires ring == Flatten(Without(groups, i)) && 0 <= a < |groups| - 1 && 0 <= b < |Without(groups, i)[a]|
      ensures var n := Without(groups, i)[a][b]; n in ring && n.follower == (b > 0) && n.key == leaders[a].key
    {
      FlattenAt(Without(groups, i), a, b);
      LostHead(i, a);
      var was := if a < i then a else a + 1;
      assert groups[was][b] in old(ring);
    }

    lemma DistinctPlaces(g: seq<seq<AvlNode>>, a: int, b: int, i: int, j: int)
      requires Distinct(head, Flatten(g)) && 0 <= a < |g| && 0 <= b < |g[a]| && 0 <= i < |g| && 0 <= j < |g[i]|
      requires a != i || b != j
      ensures g[a][b] != g[i][j]
    {
      FlattenAt(g, a, b);
      FlattenAt(g, i, j);
      if a < i {
        OffsetGrows(g, a + 1, i);
        FlattenSplit(g, a);
      } else if i < a {
        OffsetGrows(g, i + 1, a);
        FlattenSplit(g, i);
      }
    }

    lemma LeadersLead()
      requires Grouped() && Indexed()
      ensures forall n :: n in nodes ==> n in ring && !n.follower
    {
      forall n | n in nodes
        ensures n in ring && !n.follower
      {
        assert groups[n.pos][0] == leaders[n.pos] == n;
      }
    }

    /** A follower is only in the ring. */
    method RemoveFollower(node: AvlNode, ghost i: int, ghost j: int)
      requires Valid() && 0 <= i < |groups| && 0 <= j < |groups[i]| && groups[i][j] == node
      requires 0 <= Offset(groups, i) + j < |ring| && ring[Offset(groups, i) + j] == node
      requires node.follower
      modifies this`root, this`nodes, this`leaders, this`ring, this`groups, this`count, head`next, head`prev
      modifies ring`next, ring`prev, ring`parent, ring`left, ring`right, ring`balance, ring`follower
      modifies ring`pos, ring`lo, ring`hi, ring`ht
      ensures Valid() && groups == old(groups)[i := Without(old(groups)[i], j)]
      ensures ring == Without(old(ring), Offset(old(groups), i) + j) && node.next == null && node.prev == null
    {
      LeadersLead();
      RingRemove(node, Offset(groups, i) + j);
      GroupShrunk(i, j);
      Regroup(groups[i := Without(groups[i], j)]);
    }

    /** The first follower becomes the leader and takes the place of the old one in the tree. */
    method Promote(node: AvlNode, next: AvlNode)
      requires Shape() && Indexed() && BalancedOutside(null, null, null) && Rings(head, ring) && node in nodes && next !in nodes
      requires forall n :: n in nodes ==> n in ring
      modifies this`root, this`nodes, this`leaders, nodes`parent, nodes`left, nodes`right
      modifies next`follower, next`parent, next`left, next`right, next`balance, next`pos, next`lo, next`hi, next`ht
      ensures Shape() && Indexed() && BalancedOutside(null, null, null) && Rings(head, ring) && !next.follower
      ensures nodes == old(nodes) - {node} + {next}
      ensures 0 <= old(node.pos) < |old(leaders)| && leaders == old(leaders)[old(node.pos) := next]
    {
      next.follower := false;
      TreeUntouched();
      Supplant(node, next);
      RingUntouched(ring);
    }

    method RemoveLedLeader(node: AvlNode, next: AvlNode, ghost i: int)
      requires Valid() && 0 <= i < |groups| && |groups[i]| > 1 && groups[i][0] == node && groups[i][1] == next
      requires 0 <= Offset(groups, i) < |ring| && ring[Offset(groups, i)] == node
      modifies this`root, this`nodes, this`leaders, this`ring, this`groups, this`count, head`next, head`prev
      modifies ring`next, ring`prev, ring`parent, ring`left, ring`right, ring`balance, ring`follower
      modifies ring`pos, ring`lo, ring`hi, ring`ht
      ensures Valid() && groups == old(groups)[i := Without(old(groups)[i], 0)]
      ensures ring == Without(old(ring), Offset(old(groups), i)) && node.next == null && node.prev == null
    {
      LeadersLead();
      assert leaders[i] == node;
      Promote(node, next);
      RingRemove(node, Offset(groups, i));
      GroupShrunk(i, 0);
      Regroup(groups[i := Without(groups[i], 0)]);
    }

    method RemoveLoneLeader(node: AvlNode, ghost i: int)
      requires Valid() && 0 <= i < |groups| && |groups[i]| == 1 && groups[i][0] == node
      requires 0 <= Offset(groups, i) < |ring| && ring[Offset(groups, i)] == node
      modifies this`root, this`nodes, this`leaders, this`ring, this`groups, this`count, head`next, head`prev
      modifies ring`next, ring`prev, ring`parent, ring`left, ring`right, ring`balance, ring`follower
      modifies ring`pos, ring`lo, ring`hi, ring`ht
      ensures Valid() && groups == Without(old(groups), i)
      ensures ring == Without(old(ring), Offset(old(groups), i)) && node.next == null && node.prev == null
    {
      LeadersLead();
      assert leaders[i] == node;
      RemoveWorker(node);
      RingUntouched(ring);
      RingRemove(node, Offset(groups, i));
      GroupLost(i);
      Regroup(Without(groups, i));
    }

    method RemoveLeader(node: AvlNode, ghost i: int)
      requires Valid() && 0 <= i < |groups| && groups[i][0] == node
      requires 0 <= Offset(groups, i) < |ring| && ring[Offset(groups, i)] == node
      modifies this`root, this`nodes, this`leaders, this`ring, this`groups, this`count, head`next, head`prev
      modifies ring`next, ring`prev, ring`parent, ring`left, ring`right, ring`balance, ring`follower
      modifies ring`pos, ring`lo, ring`hi, ring`ht
      ensures Valid()
      ensures groups == var g := old(groups); if |g[i]| == 1 then Without(g, i) else g[i := Without(g[i], 0)]
      ensures ring == Without(old(ring), Offset(old(groups), i)) && node.next == null && node.prev == null
    {
      LastOfGroup(i, 0);
      Neighbours(head, ring, Offset(groups, i));
      if allowDups && head.prev != node && node.next.follower {
        RemoveLedLeader(node, node.next, i);
      } else {
        RemoveLoneLeader(node, i);
      }
    }

    /** Deletes exactly `node` from tree and ring. */
    method Remove(node: AvlNode)
      requires Valid() && node in ring
      modifies this`root, this`nodes, this`leaders, this`ring, this`groups, this`count, head`next, head`prev
      modifies ring`next, ring`prev, ring`parent, ring`left, ring`right, ring`balance, ring`follower
      modifies ring`pos, ring`lo, ring`hi, ring`ht
      ensures Valid() && groups == Removed(old(groups), node) && ring == Minus(old(ring), node)
      ensures node.next == null && node.prev == null
    {
      ghost var i, j := PlaceOf(node);
      if !node.follower {
        RemoveLeader(node, i);
      } else {
        RemoveFollower(node, i, j);
      }
    }

    // ---------- what a valid tree is ----------

    ghost function InOrder(n: AvlNode?): seq<AvlNode>
      requires Shape() && (n != null ==> n in nodes)
      reads this, nodes
      decreases if n == null then 0 else n.hi - n.lo
    {
      if n == null then []
      else
        assert Linked(n) && (n.left != null ==> Linked(n.left)) && (n.right != null ==> Linked(n.right));
        InOrder(n.left) + [n] + InOrder(n.right)
    }

    static lemma JoinSlices(l: seq<AvlNode>, a: int, b: int, c: int)
      requires 0 <= a <= b < c <= |l|
      ensures l[a..c] == l[a..b] + [l[b]] + l[b + 1..c]
    {
    }

    lemma {:induction false} InOrderRange(n: AvlNode)
      requires Shape() && Indexed() && n in nodes
      ensures 0 <= n.lo <= n.hi <= |leaders| && InOrder(n) == leaders[n.lo..n.hi]
      decreases n.hi - n.lo
    {
      assert Linked(n) && leaders[n.pos] == n;
      assert (n.left != null ==> Linked(n.left)) && (n.right != null ==> Linked(n.right));
      hide Shape, Indexed;
      if n.left != null {
        InOrderRange(n.left);
      }
      if n.right != null {
        InOrderRange(n.right);
      }
      assert InOrder(n.left) == leaders[n.lo..n.pos];
      assert InOrder(n.right) == leaders[n.pos + 1..n.hi];
      JoinSlices(leaders, n.lo, n.pos, n.hi);
    }

    /** The number of nodes on the longest way down. */
    ghost function Depth(n: AvlNode?): int
      requires Shape() && (n != null ==> n in nodes)
      reads this, nodes
      decreases if n == null then 0 else n.hi - n.lo
    {
      if n == null then 0
      else
        assert Linked(n) && (n.left != null ==> Linked(n.left)) && (n.right != null ==> Linked(n.right));
        1 + Max(Depth(n.left), Depth(n.right))
    }

    lemma {:induction false} DepthIsHeight(n: AvlNode)
      requires Shape() && BalancedOutside(null, null, null) && n in nodes
      ensures Depth(n) == n.ht
      decreases n.hi - n.lo
    {
      assert Linked(n) && Fine(n);
      if n.left != null {
        assert Linked(n.left);
        DepthIsHeight(n.left);
      }
      if n.right != null {
        assert Linked(n.right);
        DepthIsHeight(n.right);
      }
    }

    lemma {:induction false} Populous(n: AvlNode)
      requires Shape() && BalancedOutside(null, null, null) && n in nodes
      ensures 1 <= n.ht && n.hi - n.lo >= Fib(n.ht + 2) - 1
      decreases n.hi - n.lo
    {
      assert Linked(n) && Fine(n);
      if n.left != null {
        assert Linked(n.left);
        Populous(n.left);
      }
      if n.right != null {
        assert Linked(n.right);
        Populous(n.right);
      }
      var l, r := Height(n.left), Height(n.right);
      assert n.pos - n.lo >= Fib(l + 2) - 1 && n.hi - n.pos - 1 >= Fib(r + 2) - 1;
      FibGrows(n.ht, l + 2);
      FibGrows(n.ht, r + 2);
    }

    /** The stored balance is the difference of the real depths of the subtrees. */
    lemma BalanceIsReal(n: AvlNode)
      requires Valid() && n in nodes
      ensures (n.left == null || n.left in nodes) && (n.right == null || n.right in nodes)
      ensures n.balance == Depth(n.right) - Depth(n.left) && -1 <= n.balance <= 1
    {
      assert Linked(n) && Fine(n);
      if n.left != null { DepthIsHeight(n.left); }
      if n.right != null { DepthIsHeight(n.right); }
    }

    /** An in-order walk of the tree meets the leaders of the groups, and the ring is the groups end to end. */
    lemma TreeAndRingAgree()
      requires Valid()
      ensures InOrder(root) == leaders && |leaders| == |groups| && ring == Flatten(groups)
      ensures forall i :: 0 <= i < |groups| ==> groups[i] != [] && groups[i][0] == leaders[i]
    {
      if root != null {
        InOrderRange(root);
      } else {
        EmptyRing();
        EmptyGroups();
      }
    }

    /** A tree of depth `h` has at least `Fib(h + 2) - 1` leaders. */
    lemma DepthIsLogarithmic()
      requires Valid()
      ensures |groups| >= Fib(Depth(root) + 2) - 1
    {
      if root != null {
        DepthIsHeight(root);
        Populous(root);
      }
    }
  }

  function Fib(n: int): int
  {
    if n <= 1 then (if n == 1 then 1 else 0) else Fib(n - 1) + Fib(n - 2)
  }

  lemma {:induction false} FibGrows(a: int, b: int)
    requires 0 <= a <= b
    ensures 0 <= Fib(a) <= Fib(b)
    decreases b
  {
    if a < b {
      FibGrows(a, b - 1);
      if b >= 2 {
        FibGrows(0, b - 2);
      }
    } else if b >= 2 {
      FibGrows(0, b - 1);
      FibGrows(0, b - 2);
    }
  }

  /** Removing a node right after inserting it restores the groups. */
  lemma AddedThenRemoved(g: seq<seq<AvlNode>>, x: AvlNode)
    requires forall i :: 0 <= i < |g| ==> g[i] != [] && x !in g[i]
    ensures Removed(AvlTree.Added(g, x), x) == g
  {
    var i := AvlTree.Rank(g, x.key);
    var a := AvlTree.Added(g, x);
    if i < |g| && g[i] != [] && g[i][0].key == x.key {
      assert a[i][1] == x && a[i] == Inserted(g[i], 1, x);
      RemovedAt(a, i, 1);
      assert Without(a[i], 1) == g[i];
      assert a[i := g[i]] == g;
    } else {
      assert a[i] == [x];
      RemovedAt(a, i, 0);
      assert Without(a, i) == g;
    }
  }
}
