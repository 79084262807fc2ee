// The red-black tree engine: kvs_rbtree.c.
module RbTree {
  import opened KvData
  import opened RbShape
  import T = Table

  class RbNode {
    const key: Bytes
    var value: Bytes
    var expire: int
    var color: Color
    var left: RbNode
    var right: RbNode
    var parent: RbNode

    constructor Sentinel()
      ensures color == Black && left == this && right == this && parent == this
    {
      key, value, expire, color := [], [], 0, Black;
      left, right, parent := this, this, this;
    }

    constructor Entry(key: Bytes, value: Bytes, expire: int, nil: RbNode)
      ensures this.key == key && this.value == value && this.expire == expire
      ensures color == Red && left == nil && right == nil
    {
      this.key, this.value, this.expire, color := key, value, expire, Red;
      left, right, parent := nil, nil, nil;
    }

    ghost predicate Wired(l: RbNode, r: RbNode, p: RbNode, c: Color)
      reads this`left, this`right, this`parent, this`color
    {
      left == l && right == r && parent == p && color == c
    }
  }

  // Keys increase strictly along s.
  ghost predicate Ordered(s: seq<RbNode>) {
    forall i, j :: 0 <= i < j < |s| ==> Compare(s[i].key, s[j].key) < 0
  }

  ghost function TableOf(s: seq<RbNode>): T.Table
    reads Elems(s)`value, Elems(s)`expire
  {
    if s == [] then map[]
    else TableOf(s[1..])[s[0].key := T.Entry(s[0].value, s[0].expire)]
  }

  lemma {:induction false} TableOfHas(s: seq<RbNode>, n: RbNode)
    requires Ordered(s) && n in s
    ensures n.key in TableOf(s) && TableOf(s)[n.key] == T.Entry(n.value, n.expire)
  {
    if n != s[0] {
      TableOfHas(s[1..], n);
      CompareSymmetric(s[0].key, n.key);
    }
  }

  lemma {:induction false} TableOfOnly(s: seq<RbNode>, k: Bytes)
    requires k in TableOf(s)
    ensures exists n :: n in s && n.key == k
  {
    if s[0].key != k {
      TableOfOnly(s[1..], k);
      var n :| n in s[1..] && n.key == k;
      assert n in s;
    }
  }

  // What a table with n between a and b is, next to one without it.
  lemma {:induction false} TableOfMiddle(a: seq<RbNode>, n: RbNode, b: seq<RbNode>)
    requires Ordered(a + [n] + b)
    ensures Ordered(a + b) && n.key !in TableOf(a + b)
    ensures TableOf(a + [n] + b) == TableOf(a + b)[n.key := T.Entry(n.value, n.expire)]
  {
    var s, s' := a + [n] + b, a + b;
    assert s[|a|] == n;
    forall i, j | 0 <= i < j < |s'| ensures Compare(s'[i].key, s'[j].key) < 0 {
      assert s'[i] == s[if i < |a| then i else i + 1] && s'[j] == s[if j < |a| then j else j + 1];
    }
    forall m | m in s' ensures m in s && m.key != n.key {
      var i :| 0 <= i < |s'| && s'[i] == m;
      var j := if i < |a| then i else i + 1;
      assert s[j] == m;
      CompareSymmetric(m.key, n.key);
    }
    if n.key in TableOf(s') { TableOfOnly(s', n.key); }
    SameTable(s, s', n);
  }

  lemma {:induction false} SameTable(s: seq<RbNode>, s': seq<RbNode>, n: RbNode)
    requires Ordered(s) && Ordered(s') && n in s
    requires forall m :: m in s <==> m == n || m in s'
    requires forall m :: m in s' ==> m.key != n.key
    ensures TableOf(s) == TableOf(s')[n.key := T.Entry(n.value, n.expire)]
  {
    var t, t' := TableOf(s), TableOf(s')[n.key := T.Entry(n.value, n.expire)];
    TableOfHas(s, n);
    forall k | k in t ensures k in t' && t[k] == t'[k] {
      TableOfOnly(s, k);
      var m :| m in s && m.key == k;
      TableOfHas(s, m);
      if m != n { TableOfHas(s', m); }
    }
    forall k | k in t' ensures k in t {
      if k != n.key {
        TableOfOnly(s', k);
        var m :| m in s' && m.key == k;
        TableOfHas(s, m);
      }
    }
  }

  // Everything before the hole of x has a smaller key, everything after it a
  // larger one.
  ghost predicate Brackets(x: Path<RbNode>, key: Bytes) {
    && (forall n :: n in Before(x) ==> Compare(n.key, key) < 0)
    && (forall n :: n in After(x) ==> Compare(key, n.key) < 0)
  }

  lemma {:induction false} OrderedAround(a: seq<RbNode>, n: RbNode, b: seq<RbNode>, c: seq<RbNode>, d: seq<RbNode>)
    requires Ordered(a + (b + [n] + c) + d)
    ensures forall m :: m in b ==> Compare(m.key, n.key) < 0
    ensures forall m :: m in c ==> Compare(n.key, m.key) < 0
  {
    var s := a + (b + [n] + c) + d;
    assert s[|a| + |b|] == n;
    forall m | m in b ensures Compare(m.key, n.key) < 0 {
      var i :| 0 <= i < |b| && b[i] == m;
      assert s[|a| + i] == m;
    }
    forall m | m in c ensures Compare(n.key, m.key) < 0 {
      var i :| 0 <= i < |c| && c[i] == m;
      assert s[|a| + |b| + 1 + i] == m;
    }
  }

  // A comparison with the key at t tells on which side to go on.
  lemma {:induction false} BracketsNarrow(x: Path<RbNode>, t: Shape<RbNode>, key: Bytes)
    requires Ordered(Inorder(Plug(x, t))) && Brackets(x, key) && t.Node?
    ensures Compare(key, t.node.key) < 0 ==> Brackets(InLeft(t.color, t.node, t.right, x), key)
    ensures Compare(key, t.node.key) > 0 ==> Brackets(InRight(t.color, t.left, t.node, x), key)
  {
    InorderOfPlug(x, t);
    OrderedAround(Before(x), t.node, Inorder(t.left), Inorder(t.right), After(x));
    CompareSymmetric(key, t.node.key);
    if Compare(key, t.node.key) < 0 {
      forall n | n in Inorder(t.right) ensures Compare(key, n.key) < 0 {
        CompareTransitive(key, t.node.key, n.key);
      }
    }
    if Compare(key, t.node.key) > 0 {
      forall n | n in Inorder(t.left) ensures Compare(n.key, key) < 0 {
        CompareTransitive(n.key, t.node.key, key);
      }
    }
  }

  // A key that the brackets leave no room for is not in the table.
  lemma {:induction false} BracketsMiss(x: Path<RbNode>, key: Bytes)
    requires Brackets(x, key)
    ensures key !in TableOf(Before(x) + After(x))
  {
    CompareSymmetric(key, key);
    if key in TableOf(Before(x) + After(x)) {
      TableOfOnly(Before(x) + After(x), key);
    }
  }

  // A new node at the hole keeps the order.
  lemma {:induction false} BracketsFit(x: Path<RbNode>, n: RbNode)
    requires Ordered(Before(x) + After(x)) && Brackets(x, n.key)
    ensures Ordered(Before(x) + [n] + After(x))
  {
    var s, s' := Before(x) + After(x), Before(x) + [n] + After(x);
    var k := |Before(x)|;
    forall i, j | 0 <= i < j < |s'| ensures Compare(s'[i].key, s'[j].key) < 0 {
      if i == k {
        assert s'[j] in After(x);
      } else if j == k {
        assert s'[i] in Before(x);
      } else {
        assert s'[i] == s[if i < k then i else i - 1] && s'[j] == s[if j < k then j else j - 1];
      }
    }
  }

  // The table of a tree, and what is left of it without the node of t.
  lemma {:induction false} TableWithout(x: Path<RbNode>, t: Shape<RbNode>)
    requires t.Node? && Ordered(Inorder(Plug(x, t)))
    ensures var s := Around(x, Inorder(t.left) + Inorder(t.right));
      && Ordered(s) && TableOf(s) == TableOf(Inorder(Plug(x, t))) - {t.node.key}
      && t.node.key in TableOf(Inorder(Plug(x, t)))
      && TableOf(Inorder(Plug(x, t))) == TableOf(s)[t.node.key := T.Entry(t.node.value, t.node.expire)]
      && t.node !in s
  {
    var a, b := Before(x) + Inorder(t.left), Inorder(t.right) + After(x);
    InorderOfPlug(x, t);
    Flatten(Before(x), Inorder(t.left), t.node, Inorder(t.right), After(x));
    TableOfMiddle(a, t.node, b);
    if t.node in a + b { TableOfHas(a + b, t.node); }
  }

  // The table of a tree whose leaf at x has become the node n.
  lemma {:induction false} TableWith(x: Path<RbNode>, n: RbNode)
    requires Ordered(Inorder(Plug(x, Leaf))) && Brackets(x, n.key)
    ensures var s := Inorder(Plug(x, Node(Red, Leaf, n, Leaf)));
      Ordered(s) && TableOf(s) == TableOf(Inorder(Plug(x, Leaf)))[n.key := T.Entry(n.value, n.expire)]
  {
    InorderOfPlug(x, Leaf);
    InorderOfPlug(x, Node(Red, Leaf, n, Leaf));
    assert Before(x) + [] + After(x) == Before(x) + After(x);
    assert [] + [n] + [] == [n];
    BracketsFit(x, n);
    TableOfMiddle(Before(x), n, After(x));
  }

  predicate IsLive(n: RbNode, ttl: bool, now: int)
    reads n`expire
  {
    !(ttl && n.expire > 0 && now > n.expire)
  }

  // The entries along s that have not expired.
  ghost function Live(s: seq<RbNode>, ttl: bool, now: int): seq<T.Visit>
    reads Elems(s)`value, Elems(s)`expire
  {
    if s == [] then []
    else (if IsLive(s[0], ttl, now) then [(s[0].key, T.Entry(s[0].value, s[0].expire))] else []) + Live(s[1..], ttl, now)
  }

  lemma {:induction false} LiveJoins(a: seq<RbNode>, b: seq<RbNode>, ttl: bool, now: int)
    ensures Live(a + b, ttl, now) == Live(a, ttl, now) + Live(b, ttl, now)
  {
    if a == [] {
      assert a + b == b;
    } else {
      assert (a + b)[0] == a[0] && (a + b)[1..] == a[1..] + b;
      LiveJoins(a[1..], b, ttl, now);
    }
  }

  lemma {:induction false} LiveOfNode(t: Shape<RbNode>, ttl: bool, now: int)
    requires t.Node?
    ensures Live(Inorder(t), ttl, now)
         == Live(Inorder(t.left), ttl, now)
            + (if IsLive(t.node, ttl, now) then [(t.node.key, T.Entry(t.node.value, t.node.expire))] else [])
            + Live(Inorder(t.right), ttl, now)
  {
    LiveJoins(Inorder(t.left), [t.node], ttl, now);
    LiveJoins(Inorder(t.left) + [t.node], Inorder(t.right), ttl, now);
  }

  lemma {:induction false} LiveFrom(s: seq<RbNode>, ttl: bool, now: int, i: nat)
    requires i < |Live(s, ttl, now)|
    ensures exists n :: n in s && IsLive(n, ttl, now) && Live(s, ttl, now)[i] == (n.key, T.Entry(n.value, n.expire))
  {
    var d := |Live(s, ttl, now)| - |Live(s[1..], ttl, now)|;
    if i < d {
      assert s[0] in s;
    } else {
      LiveFrom(s[1..], ttl, now, i - d);
      var n :| n in s[1..] && IsLive(n, ttl, now) && Live(s[1..], ttl, now)[i - d] == (n.key, T.Entry(n.value, n.expire));
      assert n in s;
    }
  }

  lemma {:induction false} LiveHas(s: seq<RbNode>, ttl: bool, now: int, n: RbNode)
    requires n in s && IsLive(n, ttl, now)
    ensures (n.key, T.Entry(n.value, n.expire)) in Live(s, ttl, now)
  {
    if n != s[0] {
      LiveHas(s[1..], ttl, now, n);
    }
  }

  lemma {:induction false} LiveIsSorted(s: seq<RbNode>, ttl: bool, now: int)
    requires Ordered(s)
    ensures forall i, j :: 0 <= i < j < |Live(s, ttl, now)| ==> Compare(Live(s, ttl, now)[i].0, Live(s, ttl, now)[j].0) < 0
  {
    if s != [] {
      var l, l' := Live(s, ttl, now), Live(s[1..], ttl, now);
      var d := |l| - |l'|;
      LiveIsSorted(s[1..], ttl, now);
      forall i, j | 0 <= i < j < |l| ensures Compare(l[i].0, l[j].0) < 0 {
        assert l[j] == l'[j - d];
        if i < d {
          LiveFrom(s[1..], ttl, now, j - d);
        } else {
          assert l[i] == l'[i - d];
        }
      }
    }
  }

  lemma {:induction false} LiveIsListing(s: seq<RbNode>, ttl: bool, now: int)
    requires Ordered(s)
    ensures T.Listing(TableOf(s), ttl, now, Live(s, ttl, now))
  {
    var m, l := TableOf(s), Live(s, ttl, now);
    LiveIsSorted(s, ttl, now);
    forall i | 0 <= i < |l| ensures l[i].0 in m && m[l[i].0] == l[i].1 && !T.Expired(l[i].1, ttl, now) {
      LiveFrom(s, ttl, now, i);
      var n :| n in s && IsLive(n, ttl, now) && l[i] == (n.key, T.Entry(n.value, n.expire));
      TableOfHas(s, n);
    }
    forall k | k in m && !T.Expired(m[k], ttl, now) ensures exists i :: 0 <= i < |l| && l[i].0 == k {
      TableOfOnly(s, k);
      var n :| n in s && n.key == k;
      TableOfHas(s, n);
      LiveHas(s, ttl, now, n);
    }
  }

  function Ptr(t: Shape<RbNode>, nil: RbNode): RbNode {
    if t.Leaf? then nil else t.node
  }

  function Above(x: Path<RbNode>, nil: RbNode): RbNode {
    if x.Top? then nil else x.node
  }

  // The nodes of t are wired in the heap as t says, under par.
  ghost predicate Linked(t: Shape<RbNode>, par: RbNode, nil: RbNode)
    reads Nodes(t)`left, Nodes(t)`right, Nodes(t)`parent, Nodes(t)`color
  {
    match t
    case Leaf => true
    case Node(c, l, n, r) =>
      n.Wired(Ptr(l, nil), Ptr(r, nil), par, c) && Linked(l, n, nil) && Linked(r, n, nil)
  }

  // The nodes along x lead from root to a hole that holds the pointer p.
  ghost predicate PathLinked(x: Path<RbNode>, p: RbNode, root: RbNode, nil: RbNode)
    reads PathNodes(x)`left, PathNodes(x)`right, PathNodes(x)`parent, PathNodes(x)`color
  {
    match x
    case Top => root == p
    case InLeft(c, n, r, up) =>
      && n.Wired(p, Ptr(r, nil), Above(up, nil), c)
      && Linked(r, n, nil) && PathLinked(up, n, root, nil)
    case InRight(c, l, n, up) =>
      && n.Wired(Ptr(l, nil), p, Above(up, nil), c)
      && Linked(l, n, nil) && PathLinked(up, n, root, nil)
  }

  class Tree {
    var root: RbNode
    const nil: RbNode
    ghost var nodes: set<RbNode>
    ghost var shape: Shape<RbNode>

    constructor ()
      ensures fresh(nil) && root == nil && shape == Leaf && nodes == {}
      ensures nil.color == Black && nil.left == nil && nil.right == nil
    {
      var sentinel := new RbNode.Sentinel();
      nil, root, shape, nodes := sentinel, sentinel, Leaf, {};
    }

    // The heap holds the tree Plug(x, t); this.nodes has room for its nodes.
    ghost predicate At(x: Path<RbNode>, t: Shape<RbNode>)
      reads this`root, this`nodes, nodes`left, nodes`right, nodes`parent, nodes`color
    {
      && nil !in nodes && Apart(x, t)
      && Nodes(t) <= nodes && PathNodes(x) <= nodes
      && Linked(t, Above(x, nil), nil) && PathLinked(x, Ptr(t, nil), root, nil)
    }

    // ------------------------------------- what survives a change of pointers

    twostate lemma {:induction false} LinkedKept(t: Shape<RbNode>, new par: RbNode)
      requires nodes == old(nodes) && Nodes(t) <= nodes && par in nodes
      requires old(Linked(t, par, nil))
      requires forall m <- Nodes(t) ::
        m.left == old(m.left) && m.right == old(m.right) && m.parent == old(m.parent) && m.color == old(m.color)
      ensures Linked(t, par, nil)
    {
      if t.Node? {
        LinkedKept(t.left, t.node);
        LinkedKept(t.right, t.node);
      }
    }

    twostate lemma {:induction false} PathKept(x: Path<RbNode>, new p: RbNode)
      requires nodes == old(nodes) && PathNodes(x) <= nodes && p in nodes
      requires old(PathLinked(x, p, root, nil))
      requires forall m <- PathNodes(x) ::
        m.left == old(m.left) && m.right == old(m.right) && m.parent == old(m.parent) && m.color == old(m.color)
      ensures PathLinked(x, p, old(root), nil)
      decreases x
    {
      match x
      case Top =>
      case InLeft(_, n, r, up) =>
        LinkedKept(r, n);
        PathKept(up, n);
      case InRight(_, l, n, up) =>
        LinkedKept(l, n);
        PathKept(up, n);
    }

    // The hole of x held p and now holds q.
    twostate lemma {:induction false} PathRefilled(x: Path<RbNode>, new p: RbNode, new q: RbNode)
      requires nodes == old(nodes) && PathNodes(x) <= nodes && PathSep(x) && p in nodes
      requires old(PathLinked(x, p, root, nil)) && root == if x.Top? then q else old(root)
      requires forall m <- PathNodes(x) ::
        && m.left == (if x.InLeft? && m == x.node then q else old(m.left))
        && m.right == (if x.InRight? && m == x.node then q else old(m.right))
        && m.parent == old(m.parent) && m.color == old(m.color)
      ensures PathLinked(x, q, root, nil)
    {
      match x
      case Top =>
      case InLeft(_, n, r, up) =>
        LinkedKept(r, n);
        PathKept(up, n);
      case InRight(_, l, n, up) =>
        LinkedKept(l, n);
        PathKept(up, n);
    }

    // -------------------------------------------------------------- rotations

    // The two sides of a rotation: m above n, or n above m.
    ghost predicate MOverN(j: Joint<RbNode>)
      reads this, nodes
    {
      && nil !in nodes && Within(j, nodes) && Strewn(j)
      && j.m.Wired(Ptr(j.a, nil), j.n, Above(j.x, nil), j.c) && j.n.Wired(Ptr(j.b, nil), Ptr(j.r, nil), j.m, j.d)
      && Linked(j.a, j.m, nil) && Linked(j.b, j.n, nil) && Linked(j.r, j.n, nil) && PathLinked(j.x, j.m, root, nil)
    }

    ghost predicate NOverM(j: Joint<RbNode>)
      reads this, nodes
    {
      && nil !in nodes && Within(j, nodes) && Strewn(j)
      && j.n.Wired(j.m, Ptr(j.r, nil), Above(j.x, nil), j.d) && j.m.Wired(Ptr(j.a, nil), Ptr(j.b, nil), j.n, j.c)
      && Linked(j.a, j.m, nil) && Linked(j.b, j.m, nil) && Linked(j.r, j.n, nil) && PathLinked(j.x, j.n, root, nil)
    }

    lemma {:induction false} AtMOverN(j: Joint<RbNode>)
      ensures At(j.x, j.MOverN()) <==> MOverN(j)
    {
      StrewnMOverN(j);
      assert Linked(Node(j.d, j.b, j.n, j.r), j.m, nil) <==>
        j.n.Wired(Ptr(j.b, nil), Ptr(j.r, nil), j.m, j.d) && Linked(j.b, j.n, nil) && Linked(j.r, j.n, nil);
    }

    lemma {:induction false} AtNOverM(j: Joint<RbNode>)
      ensures At(j.x, j.NOverM()) <==> NOverM(j)
    {
      StrewnNOverM(j);
      assert Linked(Node(j.c, j.a, j.m, j.b), j.n, nil) <==>
        j.m.Wired(Ptr(j.a, nil), Ptr(j.b, nil), j.n, j.c) && Linked(j.a, j.m, nil) && Linked(j.b, j.m, nil);
    }

    // x, its child y, y's inner child b and x's parent are different nodes.
    ghost predicate Turnable(x: RbNode, y: RbNode, b: RbNode)
      reads this, nodes
    {
      && nil !in nodes && x in nodes && y in nodes && (b in nodes || b == nil)
      && (x.parent in nodes || x.parent == nil)
      && y != x && b != x && b != y && x.parent != x && x.parent != y && (b == x.parent ==> b == nil)
    }

    twostate predicate LeftRotated(x: RbNode)
      reads this, nodes
      requires nodes == old(nodes)
    {
      var y, p := old(x.right), old(x.parent);
      var b := old(y.left);
      && root == (if p == nil then y else old(root))
      && forall m <- nodes ::
            && m.left == (if m == y then x else if m == p && old(p.left) == x then y else old(m.left))
            && m.right == (if m == x then b else if m == p && old(p.left) != x then y else old(m.right))
            && m.parent == (if m == x then y else if m == y then p else if m == b then x else old(m.parent))
            && m.color == old(m.color)
    }

    method LeftRotate(x: RbNode)
      requires x in nodes && x.right in nodes && Turnable(x, x.right, x.right.left)
      modifies this`root, nodes`left, nodes`right, nodes`parent
      ensures LeftRotated(x)
    {
      var y := x.right;
      x.right := y.left;
      if y.left != nil {
        y.left.parent := x;
      }
      y.parent := x.parent;
      if x.parent == nil {
        root := y;
      } else if x == x.parent.left {
        x.parent.left := y;
      } else {
        x.parent.right := y;
      }
      y.left := x;
      x.parent := y;
    }

    twostate predicate RightRotated(y: RbNode)
      reads this, nodes
      requires nodes == old(nodes)
    {
      var x, p := old(y.left), old(y.parent);
      var b := old(x.right);
      && root == (if p == nil then x else old(root))
      && forall m <- nodes ::
            && m.right == (if m == x then y else if m == p && old(p.right) == y then x else old(m.right))
            && m.left == (if m == y then b else if m == p && old(p.right) != y then x else old(m.left))
            && m.parent == (if m == y then x else if m == x then p else if m == b then y else old(m.parent))
            && m.color == old(m.color)
    }

    method RightRotate(y: RbNode)
      requires y in nodes && y.left in nodes && Turnable(y, y.left, y.left.right)
      modifies this`root, nodes`left, nodes`right, nodes`parent
      ensures RightRotated(y)
    {
      var x := y.left;
      y.left := x.right;
      if x.right != nil {
        x.right.parent := y;
      }
      x.parent := y.parent;
      if y.parent == nil {
        root := x;
      } else if y == y.parent.right {
        y.parent.right := x;
      } else {
        y.parent.left := x;
      }
      x.right := y;
      y.parent := x;
    }

    lemma {:induction false} MOverNTurnable(j: Joint<RbNode>)
      requires MOverN(j)
      ensures Turnable(j.m, j.n, Ptr(j.b, nil)) && j.m.right == j.n && j.n.left == Ptr(j.b, nil)
    {
      assert j.b.Node? ==> j.b.node in Nodes(j.b);
      assert !j.x.Top? ==> j.x.node in PathNodes(j.x);
    }

    lemma {:induction false} NOverMTurnable(j: Joint<RbNode>)
      requires NOverM(j)
      ensures Turnable(j.n, j.m, Ptr(j.b, nil)) && j.n.left == j.m && j.m.right == Ptr(j.b, nil)
    {
      assert j.b.Node? ==> j.b.node in Nodes(j.b);
      assert !j.x.Top? ==> j.x.node in PathNodes(j.x);
    }

    twostate lemma {:induction false} LeftTurnedParts(j: Joint<RbNode>)
      requires nodes == old(nodes)
      requires old(MOverN(j)) && LeftRotated(j.m)
      ensures Linked(j.a, j.m, nil) && Linked(j.b, j.m, nil) && Linked(j.r, j.n, nil)
    {
      assert j.b.Node? ==> j.b.node in Nodes(j.b);
      assert !j.x.Top? ==> j.x.node in PathNodes(j.x);
      LinkedKept(j.a, j.m);
      LinkedKept(j.r, j.n);
      if j.b.Node? {
        LinkedKept(j.b.left, j.b.node);
        LinkedKept(j.b.right, j.b.node);
      }
    }

    twostate lemma {:induction false} LeftTurnedPath(j: Joint<RbNode>)
      requires nodes == old(nodes)
      requires old(MOverN(j)) && LeftRotated(j.m)
      ensures PathLinked(j.x, j.n, root, nil)
    {
      assert j.b.Node? ==> j.b.node in Nodes(j.b);
      assert !j.x.Top? ==> j.x.node in PathNodes(j.x);
      assert j.x.InRight? && j.x.left.Node? ==> j.x.left.node in PathNodes(j.x);
      PathRefilled(j.x, j.m, j.n);
    }

    twostate lemma {:induction false} RightTurnedParts(j: Joint<RbNode>)
      requires nodes == old(nodes)
      requires old(NOverM(j)) && RightRotated(j.n)
      ensures Linked(j.a, j.m, nil) && Linked(j.b, j.n, nil) && Linked(j.r, j.n, nil)
    {
      assert j.b.Node? ==> j.b.node in Nodes(j.b);
      assert !j.x.Top? ==> j.x.node in PathNodes(j.x);
      LinkedKept(j.a, j.m);
      LinkedKept(j.r, j.n);
      if j.b.Node? {
        LinkedKept(j.b.left, j.b.node);
        LinkedKept(j.b.right, j.b.node);
      }
    }

    twostate lemma {:induction false} RightTurnedPath(j: Joint<RbNode>)
      requires nodes == old(nodes)
      requires old(NOverM(j)) && RightRotated(j.n)
      ensures PathLinked(j.x, j.m, root, nil)
    {
      assert j.b.Node? ==> j.b.node in Nodes(j.b);
      assert !j.x.Top? ==> j.x.node in PathNodes(j.x);
      assert j.x.InLeft? && j.x.right.Node? ==> j.x.right.node in PathNodes(j.x);
      PathRefilled(j.x, j.n, j.m);
    }

    // The rotations, seen as what they do to the shape.
    method TurnLeft(m: RbNode, ghost j: Joint<RbNode>)
      requires m == j.m && At(j.x, j.MOverN())
      modifies this`root, nodes`left, nodes`right, nodes`parent
      ensures At(j.x, j.NOverM())
    {
      AtMOverN(j);
      MOverNTurnable(j);
      LeftRotate(m);
      LeftTurnedParts(j);
      LeftTurnedPath(j);
      assert NOverM(j);
      AtNOverM(j);
    }

    method TurnRight(n: RbNode, ghost j: Joint<RbNode>)
      requires n == j.n && At(j.x, j.NOverM())
      modifies this`root, nodes`left, nodes`right, nodes`parent
      ensures At(j.x, j.MOverN())
    {
      AtNOverM(j);
      NOverMTurnable(j);
      RightRotate(n);
      RightTurnedParts(j);
      RightTurnedPath(j);
      assert MOverN(j);
      AtMOverN(j);
    }

    // ------------------------------------------------- looking and recoloring

    // The same heap, looked at from one level up, or from the sibling.
    lemma {:induction false} Look(x: Path<RbNode>, t: Shape<RbNode>)
      requires !x.Top?
      ensures At(x, t) <==> At(x.up, Fill(x, t))
    {
      if At(x, t) {
        assert At(x.up, Fill(x, t));
      }
      if At(x.up, Fill(x, t)) {
        assert At(x, t);
      }
    }

    lemma {:induction false} LookAcross(x: Path<RbNode>, t: Shape<RbNode>)
      requires !x.Top?
      ensures At(x, t) <==> At(Across(x, t), Sibling(x))
    {
      Look(x, t);
      Look(Across(x, t), Sibling(x));
    }

    lemma {:induction false} LookFromTop(x: Path<RbNode>, t: Shape<RbNode>)
      ensures At(x, t) <==> At(Top, Plug(x, t))
      decreases x
    {
      if !x.Top? {
        Look(x, t);
        LookFromTop(x.up, Fill(x, t));
      }
    }

    // And from the place where a longer path started.
    lemma {:induction false} LookFrom(chain: Path<RbNode>, base: Path<RbNode>, t: Shape<RbNode>)
      ensures At(Concat(chain, base), t) <==> At(base, Plug(chain, t))
      decreases chain
    {
      if !chain.Top? {
        Look(Concat(chain, base), t);
        LookFrom(chain.up, base, Fill(chain, t));
      }
    }

    // What the pointers around a place say.
    lemma {:induction false} Surroundings(x: Path<RbNode>, t: Shape<RbNode>)
      requires At(x, t)
      ensures nil !in nodes
      ensures t.Node? ==> t.node in nodes && t.node.Wired(Ptr(t.left, nil), Ptr(t.right, nil), Above(x, nil), t.color)
      ensures !x.Top? ==>
        && x.node in nodes && x.node.parent == Above(x.up, nil) && x.node.color == x.color
        && x.node.left == Ptr(Fill(x, t).left, nil) && x.node.right == Ptr(Fill(x, t).right, nil)
        && (t.Node? || Sibling(x).Node? ==> Ptr(t, nil) != Ptr(Sibling(x), nil))
        && (Sibling(x).Node? ==> Sibling(x).node in nodes && Sibling(x).node.color == Sibling(x).color)
    {
      if !x.Top? && Sibling(x).Node? {
        assert Sibling(x).node in PathNodes(x);
      }
    }

    lemma {:induction false} RootIsAbove(x: Path<RbNode>, t: Shape<RbNode>)
      requires At(x, t)
      ensures if x.Top? then root == Ptr(t, nil) else root in PathNodes(x) && root != Ptr(t, nil)
      decreases x
    {
      if !x.Top? {
        Look(x, t);
        RootIsAbove(x.up, Fill(x, t));
      }
    }

    method Paint(n: RbNode, c: Color, ghost x: Path<RbNode>, ghost t: Shape<RbNode>)
      requires At(x, t) && t.Node? && n == t.node
      modifies nodes`color
      ensures At(x, Dye(t, c))
    {
      n.color := c;
      LinkedKept(t.left, n);
      LinkedKept(t.right, n);
      PathKept(x, n);
    }

    // -------------------------------------------------------- insertion fixup

    // z is red, and only its parent may be red with it.
    ghost predicate RisingAt(x: Path<RbNode>, t: Shape<RbNode>, z: RbNode)
      reads this, nodes
    {
      At(x, t) && Rising(x, t) && z == t.node
    }

    // Red uncle u.
    method RecolorUncle(p: RbNode, u: RbNode, g: RbNode, ghost x: Path<RbNode>, ghost t: Shape<RbNode>)
      requires At(x, t) && !x.Top? && !x.up.Top? && Sibling(x.up).Node?
      requires p == x.node && g == x.up.node && u == Sibling(x.up).node
      modifies nodes`color
      ensures At(x.up.up, Recolored(x, t))
    {
      hide At;
      ghost var fp := Dye(Fill(x, t), Black);
      ghost var fu := Dye(Sibling(x.up), Black);
      Look(x, t);
      Paint(p, Black, x.up, Fill(x, t));
      LookAcross(x.up, fp);
      Paint(u, Black, Across(x.up, fp), Sibling(x.up));
      LookAcross(Across(x.up, fp), fu);
      Look(Across(Across(x.up, fp), fu), fp);
      Paint(g, Red, x.up.up, Fill(Across(Across(x.up, fp), fu), fp));
    }

    // Black uncle: an inner grandchild z first moves out; then z's parent turns
    // black, its grandparent red, and the parent turns over the grandparent.
    method TurnOverLeft(z0: RbNode, ghost x0: Path<RbNode>, ghost t0: Shape<RbNode>)
      returns (z: RbNode, ghost x: Path<RbNode>, ghost t: Shape<RbNode>)
      requires RisingAt(x0, t0, z0) && !x0.Top? && x0.color == Red
      requires x0.up.InLeft? && !IsRed(Sibling(x0.up))
      modifies this`root, nodes`left, nodes`right, nodes`parent, nodes`color
      ensures RisingAt(x, t, z) && Depth(x) < Depth(x0) && Inorder(Plug(x, t)) == Inorder(Plug(x0, t0))
    {
      hide At;
      z, x, t := z0, x0, t0;
      Surroundings(x, t);
      if z == z.parent.right {
        z := z.parent;
        Look(x, t);
        TurnLeft(z, Inner(x, t));
        MovedOutRises(x, t);
        x, t := MovedOut(x0, t0).0, MovedOut(x0, t0).1;
        Look(x, t);
        Surroundings(x, t);
      }
      ghost var fp := Dye(Fill(x, t), Black);
      Look(x, t);
      Paint(z.parent, Black, x.up, Fill(x, t));
      Surroundings(x.up, fp);
      Look(x.up, fp);
      Paint(z.parent.parent, Red, x.up.up, Fill(x.up, fp));
      TurnRight(z.parent.parent, Outer(x, t));
      Look(Turned(x), t);
      TurnedRises(x, t);
      TurnedListing(x, t);
      x := Turned(x);
    }

    method TurnOverRight(z0: RbNode, ghost x0: Path<RbNode>, ghost t0: Shape<RbNode>)
      returns (z: RbNode, ghost x: Path<RbNode>, ghost t: Shape<RbNode>)
      requires RisingAt(x0, t0, z0) && !x0.Top? && x0.color == Red
      requires x0.up.InRight? && !IsRed(Sibling(x0.up))
      modifies this`root, nodes`left, nodes`right, nodes`parent, nodes`color
      ensures RisingAt(x, t, z) && Depth(x) < Depth(x0) && Inorder(Plug(x, t)) == Inorder(Plug(x0, t0))
    {
      hide At;
      z, x, t := z0, x0, t0;
      Surroundings(x, t);
      if z == z.parent.left {
        z := z.parent;
        Look(x, t);
        TurnRight(z, Inner(x, t));
        MovedOutRises(x, t);
        x, t := MovedOut(x0, t0).0, MovedOut(x0, t0).1;
        Look(x, t);
        Surroundings(x, t);
      }
      ghost var fp := Dye(Fill(x, t), Black);
      Look(x, t);
      Paint(z.parent, Black, x.up, Fill(x, t));
      Surroundings(x.up, fp);
      Look(x.up, fp);
      Paint(z.parent.parent, Red, x.up.up, Fill(x.up, fp));
      TurnLeft(z.parent.parent, Outer(x, t));
      Look(Turned(x), t);
      TurnedRises(x, t);
      TurnedListing(x, t);
      x := Turned(x);
    }

    // What the loop body reads before it decides.
    lemma {:induction false} UncleInSight(x: Path<RbNode>, t: Shape<RbNode>)
      requires At(x, t) && t.Node? && !x.Top? && x.color == Red && PathRb(x, Bh(t))
      ensures t.node.parent == x.node && !x.up.Top? && x.node.parent == x.up.node
      ensures x.up.node in nodes && x.node in nodes
      ensures x.node == x.up.node.left <==> x.up.InLeft?
      ensures x.up.InLeft? ==> x.up.node.right == Ptr(Sibling(x.up), nil)
      ensures x.up.InRight? ==> x.up.node.left == Ptr(Sibling(x.up), nil)
      ensures Sibling(x.up).Node? ==> Sibling(x.up).node.color == Sibling(x.up).color
    {
      hide At;
      Surroundings(x, t);
      Look(x, t);
      Surroundings(x.up, Fill(x, t));
    }

    // One round of the loop.
    method InsertRound(z0: RbNode, ghost x0: Path<RbNode>, ghost t0: Shape<RbNode>)
      returns (z: RbNode, ghost x: Path<RbNode>, ghost t: Shape<RbNode>)
      requires RisingAt(x0, t0, z0) && !x0.Top? && x0.color == Red && nil.color == Black
      modifies this`root, nodes`left, nodes`right, nodes`parent, nodes`color
      ensures RisingAt(x, t, z) && Depth(x) < Depth(x0) && Inorder(Plug(x, t)) == Inorder(Plug(x0, t0))
    {
      hide At;
      z, x, t := z0, x0, t0;
      UncleInSight(x, t);
      if z.parent == z.parent.parent.left {
        var y := z.parent.parent.right;
        if y.color == Red {
          RecolorUncle(z.parent, y, z.parent.parent, x, t);
          RecoloredRises(x, t);
          z := z.parent.parent;
          x, t := x.up.up, Recolored(x, t);
        } else {
          z, x, t := TurnOverLeft(z, x, t);
        }
      } else {
        var y := z.parent.parent.left;
        if y.color == Red {
          RecolorUncle(z.parent, y, z.parent.parent, x, t);
          RecoloredRises(x, t);
          z := z.parent.parent;
          x, t := x.up.up, Recolored(x, t);
        } else {
          z, x, t := TurnOverRight(z, x, t);
        }
      }
    }

    method InsertFixup(z0: RbNode, ghost x0: Path<RbNode>, ghost t0: Shape<RbNode>) returns (ghost s: Shape<RbNode>)
      requires RisingAt(x0, t0, z0) && nil.color == Black
      modifies this`root, nodes`left, nodes`right, nodes`parent, nodes`color
      ensures At(Top, s) && Rb(s) && !IsRed(s) && Inorder(s) == Inorder(Plug(x0, t0))
    {
      hide At;
      var z := z0;
      ghost var x, t := x0, t0;
      Surroundings(x, t);
      while z.parent.color == Red
        invariant RisingAt(x, t, z) && Inorder(Plug(x, t)) == Inorder(Plug(x0, t0))
        invariant z.parent == Above(x, nil) && z.parent.color == if x.Top? then Black else x.color
        decreases Depth(x)
      {
        z, x, t := InsertRound(z, x, t);
        Surroundings(x, t);
      }
      s := BlackenRoot(x, t);
    }

    // The last line of the fixup.
    method BlackenRoot(ghost x: Path<RbNode>, ghost t: Shape<RbNode>) returns (ghost s: Shape<RbNode>)
      requires At(x, t) && Rising(x, t) && (!x.Top? ==> x.color == Black)
      modifies nodes`color
      ensures At(Top, s) && Rb(s) && !IsRed(s) && Inorder(s) == Inorder(Plug(x, t))
    {
      ghost var whole := Plug(x, t);
      LookFromTop(x, t);
      assert Rb(whole) && whole.Node? by {
        if !x.Top? { PlugRb(x, t); }
        InorderOfPlug(x, t);
      }
      Paint(root, Black, Top, whole);
      s := Dye(whole, Black);
    }

    // --------------------------------------------------------- deletion fixup

    method PaintParent(p: RbNode, c: Color, ghost x: Path<RbNode>, ghost t: Shape<RbNode>)
      requires At(x, t) && !x.Top? && p == x.node
      modifies nodes`color
      ensures At(WithColor(x, c), t)
    {
      hide At;
      Look(x, t);
      Paint(p, c, x.up, Fill(x, t));
      Look(WithColor(x, c), t);
    }

    method PaintSibling(w: RbNode, c: Color, ghost x: Path<RbNode>, ghost t: Shape<RbNode>)
      requires At(x, t) && !x.Top? && Sibling(x).Node? && w == Sibling(x).node
      modifies nodes`color
      ensures At(WithSibling(x, Dye(Sibling(x), c)), t)
    {
      hide At;
      LookAcross(x, t);
      Paint(w, c, Across(x, t), Sibling(x));
      LookAcross(Across(x, t), Dye(Sibling(x), c));
    }

    // One side of the subtree at the end of x.
    method PaintChild(n: RbNode, c: Color, left: bool, ghost x: Path<RbNode>, ghost t: Shape<RbNode>)
      requires At(x, t) && t.Node?
      requires if left then t.left.Node? && n == t.left.node else t.right.Node? && n == t.right.node
      modifies nodes`color
      ensures At(x, if left then Node(t.color, Dye(t.left, c), t.node, t.right)
                    else Node(t.color, t.left, t.node, Dye(t.right, c)))
    {
      hide At;
      if left {
        Look(InLeft(t.color, t.node, t.right, x), t.left);
        Paint(n, c, InLeft(t.color, t.node, t.right, x), t.left);
        Look(InLeft(t.color, t.node, t.right, x), Dye(t.left, c));
      } else {
        Look(InRight(t.color, t.left, t.node, x), t.right);
        Paint(n, c, InRight(t.color, t.left, t.node, x), t.right);
        Look(InRight(t.color, t.left, t.node, x), Dye(t.right, c));
      }
    }

    // x points at t, which is one black node short; the sentinel, too, knows
    // the parent.
    ghost predicate ShortAt(path: Path<RbNode>, t: Shape<RbNode>, x: RbNode)
      reads this, nodes, nil
    {
      && At(path, t) && Short(path, t) && x == Ptr(t, nil) && nil.color == Black
      && (path.Top? || x.parent == path.node)
    }

    lemma {:induction false} SiblingInSight(path: Path<RbNode>, t: Shape<RbNode>)
      requires At(path, t) && !path.Top? && Sibling(path).Node?
      ensures var w := Sibling(path);
        && path.node in nodes && path.node.color == path.color && w.node in nodes
        && (path.node.left == Ptr(t, nil) <==> path.InLeft?)
        && (if path.InLeft? then path.node.right else path.node.left) == w.node
        && w.node.Wired(Ptr(w.left, nil), Ptr(w.right, nil), path.node, w.color)
        && (w.left.Node? ==> w.left.node.color == w.left.color)
        && (w.right.Node? ==> w.right.node.color == w.right.color)
    {
      hide At;
      Surroundings(path, t);
      LookAcross(path, t);
      var w := Sibling(path);
      Surroundings(Across(path, t), w);
      if w.left.Node? {
        Look(InLeft(w.color, w.node, w.right, Across(path, t)), w.left);
        Surroundings(InLeft(w.color, w.node, w.right, Across(path, t)), w.left);
      }
      if w.right.Node? {
        Look(InRight(w.color, w.left, w.node, Across(path, t)), w.right);
        Surroundings(InRight(w.color, w.left, w.node, Across(path, t)), w.right);
      }
    }

    method RaiseSiblingLeft(p: RbNode, w: RbNode, ghost path: Path<RbNode>, ghost t: Shape<RbNode>)
      requires At(path, t) && path.InLeft? && p == path.node
      requires Sibling(path).Node? && w == Sibling(path).node
      modifies this`root, nodes`left, nodes`right, nodes`parent, nodes`color
      ensures At(UnderSibling(path), t)
    {
      hide At;
      ghost var p1 := WithSibling(path, Dye(Sibling(path), Black));
      PaintSibling(w, Black, path, t);
      PaintParent(p, Red, p1, t);
      Look(WithColor(p1, Red), t);
      TurnLeft(p, SiblingUp(path, t));
      Look(UnderSibling(path).up, Fill(UnderSibling(path), t));
      Look(UnderSibling(path), t);
    }

    method RaiseSiblingRight(p: RbNode, w: RbNode, ghost path: Path<RbNode>, ghost t: Shape<RbNode>)
      requires At(path, t) && path.InRight? && p == path.node
      requires Sibling(path).Node? && w == Sibling(path).node
      modifies this`root, nodes`left, nodes`right, nodes`parent, nodes`color
      ensures At(UnderSibling(path), t)
    {
      hide At;
      ghost var p1 := WithSibling(path, Dye(Sibling(path), Black));
      PaintSibling(w, Black, path, t);
      PaintParent(p, Red, p1, t);
      Look(WithColor(p1, Red), t);
      TurnRight(p, SiblingUp(path, t));
      Look(UnderSibling(path).up, Fill(UnderSibling(path), t));
      Look(UnderSibling(path), t);
    }

    method RaiseNearLeft(n: RbNode, w: RbNode, ghost path: Path<RbNode>, ghost t: Shape<RbNode>)
      requires At(path, t) && path.InLeft? && Sibling(path).Node? && w == Sibling(path).node
      requires Sibling(path).left.Node? && n == Sibling(path).left.node
      modifies this`root, nodes`left, nodes`right, nodes`parent, nodes`color
      ensures At(WithSibling(path, NearSibling(path, t)), t)
    {
      hide At;
      ghost var s, y := Sibling(path), Across(path, t);
      LookAcross(path, t);
      PaintChild(n, Black, true, y, s);
      Paint(w, Red, y, Node(s.color, Dye(s.left, Black), s.node, s.right));
      TurnRight(w, NearUp(path, t));
      LookAcross(y, NearSibling(path, t));
    }

    method RaiseNearRight(n: RbNode, w: RbNode, ghost path: Path<RbNode>, ghost t: Shape<RbNode>)
      requires At(path, t) && path.InRight? && Sibling(path).Node? && w == Sibling(path).node
      requires Sibling(path).right.Node? && n == Sibling(path).right.node
      modifies this`root, nodes`left, nodes`right, nodes`parent, nodes`color
      ensures At(WithSibling(path, NearSibling(path, t)), t)
    {
      hide At;
      ghost var s, y := Sibling(path), Across(path, t);
      LookAcross(path, t);
      PaintChild(n, Black, false, y, s);
      Paint(w, Red, y, Node(s.color, s.left, s.node, Dye(s.right, Black)));
      TurnLeft(w, NearUp(path, t));
      LookAcross(y, NearSibling(path, t));
    }

    method RaiseFarLeft(p: RbNode, w: RbNode, f: RbNode, c: Color, ghost path: Path<RbNode>, ghost t: Shape<RbNode>)
      requires At(path, t) && path.InLeft? && p == path.node && c == path.color
      requires Sibling(path).Node? && w == Sibling(path).node
      requires Sibling(path).right.Node? && f == Sibling(path).right.node
      modifies this`root, nodes`left, nodes`right, nodes`parent, nodes`color
      ensures At(path.up, FarUp(path, t).NOverM())
    {
      hide At;
      ghost var s := Sibling(path);
      ghost var s' := Node(c, s.left, s.node, Dye(s.right, Black));
      PaintSibling(w, c, path, t);
      PaintParent(p, Black, WithSibling(path, Dye(s, c)), t);
      ghost var y := WithColor(WithSibling(path, Dye(s, c)), Black);
      LookAcross(y, t);
      PaintChild(f, Black, false, Across(y, t), Dye(s, c));
      LookAcross(Across(y, t), s');
      Look(WithSibling(y, s'), t);
      TurnLeft(p, FarUp(path, t));
    }

    method RaiseFarRight(p: RbNode, w: RbNode, f: RbNode, c: Color, ghost path: Path<RbNode>, ghost t: Shape<RbNode>)
      requires At(path, t) && path.InRight? && p == path.node && c == path.color
      requires Sibling(path).Node? && w == Sibling(path).node
      requires Sibling(path).left.Node? && f == Sibling(path).left.node
      modifies this`root, nodes`left, nodes`right, nodes`parent, nodes`color
      ensures At(path.up, FarUp(path, t).MOverN())
    {
      hide At;
      ghost var s := Sibling(path);
      ghost var s' := Node(c, Dye(s.left, Black), s.node, s.right);
      PaintSibling(w, c, path, t);
      PaintParent(p, Black, WithSibling(path, Dye(s, c)), t);
      ghost var y := WithColor(WithSibling(path, Dye(s, c)), Black);
      LookAcross(y, t);
      PaintChild(f, Black, true, Across(y, t), Dye(s, c));
      LookAcross(Across(y, t), s');
      Look(WithSibling(y, s'), t);
      TurnRight(p, FarUp(path, t));
    }

    // Both children of the black sibling w are black.
    method ReddenSibling(x0: RbNode, w: RbNode, ghost path0: Path<RbNode>, ghost t0: Shape<RbNode>)
      returns (x: RbNode, ghost path: Path<RbNode>, ghost t: Shape<RbNode>)
      requires ShortAt(path0, t0, x0) && !IsRed(t0) && !path0.Top?
      requires Sibling(path0).Node? && !IsRed(Sibling(path0)) && w == Sibling(path0).node
      requires !IsRed(Sibling(path0).left) && !IsRed(Sibling(path0).right)
      modifies nodes`color
      ensures ShortAt(path, t, x) && Inorder(Plug(path, t)) == Inorder(Plug(path0, t0))
      ensures path == path0.up && t.Node? && t.color == path0.color
    {
      hide At;
      SiblingReddened(path0, t0);
      PaintSibling(w, Red, path0, t0);
      ghost var y := WithSibling(path0, Dye(Sibling(path0), Red));
      Look(y, t0);
      x, path, t := x0.parent, path0.up, Fill(y, t0);
      Surroundings(path, t);
    }

    // A child of the black sibling w is red: make it the far one, and let w
    // take the parent's place.
    method BorrowFromLeft(x0: RbNode, w0: RbNode, ghost path0: Path<RbNode>, ghost t: Shape<RbNode>)
      returns (x: RbNode, ghost s: Shape<RbNode>)
      requires ShortAt(path0, t, x0) && !IsRed(t) && path0.InLeft?
      requires Sibling(path0).Node? && !IsRed(Sibling(path0)) && w0 == Sibling(path0).node
      requires IsRed(Sibling(path0).left) || IsRed(Sibling(path0).right)
      modifies this`root, nodes`left, nodes`right, nodes`parent, nodes`color
      ensures ShortAt(Top, s, x) && Inorder(s) == Inorder(Plug(path0, t))
    {
      hide At;
      var w := w0;
      ghost var path := path0;
      Surroundings(path, t);
      SiblingInSight(path, t);
      if w.right.color == Black {
        NearSiblingShort(path, t);
        RaiseNearLeft(w.left, w, path, t);
        path := WithSibling(path, NearSibling(path, t));
        Surroundings(path, t);
        SiblingInSight(path, t);
        w := x0.parent.right;
      }
      FarUpMakesUp(path, t);
      ghost var top := FarUp(path, t).NOverM();
      RaiseFarLeft(x0.parent, w, w.right, x0.parent.color, path, t);
      LookFromTop(path.up, top);
      x, s := root, Plug(path.up, top);
      RootIsAbove(Top, s);
    }

    // A red sibling turns over the parent, and a black one takes its place.
    method BlackSiblingLeft(x: RbNode, ghost path0: Path<RbNode>, ghost t: Shape<RbNode>)
      returns (w: RbNode, ghost path: Path<RbNode>)
      requires ShortAt(path0, t, x) && !IsRed(t) && path0.InLeft?
      modifies this`root, nodes`left, nodes`right, nodes`parent, nodes`color
      ensures ShortAt(path, t, x) && path.InLeft? && Inorder(Plug(path, t)) == Inorder(Plug(path0, t))
      ensures Sibling(path).Node? && !IsRed(Sibling(path)) && w == Sibling(path).node
      ensures path == path0 || (Depth(path) == Depth(path0) + 1 && path.color == Red)
    {
      hide At;
      path := path0;
      ShortHasSibling(path, t);
      SiblingInSight(path, t);
      w := x.parent.right;
      if w.color == Red {
        UnderSiblingShort(path, t);
        RaiseSiblingLeft(x.parent, w, path, t);
        path := UnderSibling(path);
        ShortHasSibling(path, t);
        Surroundings(path, t);
        w := x.parent.right;
      }
    }

    method DeleteRoundLeft(x0: RbNode, ghost path0: Path<RbNode>, ghost t0: Shape<RbNode>)
      returns (x: RbNode, ghost path: Path<RbNode>, ghost t: Shape<RbNode>)
      requires ShortAt(path0, t0, x0) && !IsRed(t0) && path0.InLeft?
      modifies this`root, nodes`left, nodes`right, nodes`parent, nodes`color
      ensures ShortAt(path, t, x) && Inorder(Plug(path, t)) == Inorder(Plug(path0, t0))
      ensures Depth(path) < Depth(path0) || (Depth(path) == Depth(path0) && IsRed(t))
    {
      hide At;
      x, path, t := x0, path0, t0;
      var w;
      w, path := BlackSiblingLeft(x, path, t);
      SiblingInSight(path, t);
      if w.left.color == Black && w.right.color == Black {
        x, path, t := ReddenSibling(x, w, path, t);
      } else {
        x, t := BorrowFromLeft(x, w, path, t);
        path := Top;
      }
    }

    // A child of the black sibling w is red: make it the far one, and let w
    // take the parent's place.
    method BorrowFromRight(x0: RbNode, w0: RbNode, ghost path0: Path<RbNode>, ghost t: Shape<RbNode>)
      returns (x: RbNode, ghost s: Shape<RbNode>)
      requires ShortAt(path0, t, x0) && !IsRed(t) && path0.InRight?
      requires Sibling(path0).Node? && !IsRed(Sibling(path0)) && w0 == Sibling(path0).node
      requires IsRed(Sibling(path0).left) || IsRed(Sibling(path0).right)
      modifies this`root, nodes`left, nodes`right, nodes`parent, nodes`color
      ensures ShortAt(Top, s, x) && Inorder(s) == Inorder(Plug(path0, t))
    {
      hide At;
      var w := w0;
      ghost var path := path0;
      Surroundings(path, t);
      SiblingInSight(path, t);
      if w.left.color == Black {
        NearSiblingShort(path, t);
        RaiseNearRight(w.right, w, path, t);
        path := WithSibling(path, NearSibling(path, t));
        Surroundings(path, t);
        SiblingInSight(path, t);
        w := x0.parent.left;
      }
      FarUpMakesUp(path, t);
      ghost var top := FarUp(path, t).MOverN();
      RaiseFarRight(x0.parent, w, w.left, x0.parent.color, path, t);
      LookFromTop(path.up, top);
      x, s := root, Plug(path.up, top);
      RootIsAbove(Top, s);
    }

    // A red sibling turns over the parent, and a black one takes its place.
    method BlackSiblingRight(x: RbNode, ghost path0: Path<RbNode>, ghost t: Shape<RbNode>)
      returns (w: RbNode, ghost path: Path<RbNode>)
      requires ShortAt(path0, t, x) && !IsRed(t) && path0.InRight?
      modifies this`root, nodes`left, nodes`right, nodes`parent, nodes`color
      ensures ShortAt(path, t, x) && path.InRight? && Inorder(Plug(path, t)) == Inorder(Plug(path0, t))
      ensures Sibling(path).Node? && !IsRed(Sibling(path)) && w == Sibling(path).node
      ensures path == path0 || (Depth(path) == Depth(path0) + 1 && path.color == Red)
    {
      hide At;
      path := path0;
      ShortHasSibling(path, t);
      SiblingInSight(path, t);
      w := x.parent.left;
      if w.color == Red {
        UnderSiblingShort(path, t);
        RaiseSiblingRight(x.parent, w, path, t);
        path := UnderSibling(path);
        ShortHasSibling(path, t);
        Surroundings(path, t);
        w := x.parent.left;
      }
    }

    method DeleteRoundRight(x0: RbNode, ghost path0: Path<RbNode>, ghost t0: Shape<RbNode>)
      returns (x: RbNode, ghost path: Path<RbNode>, ghost t: Shape<RbNode>)
      requires ShortAt(path0, t0, x0) && !IsRed(t0) && path0.InRight?
      modifies this`root, nodes`left, nodes`right, nodes`parent, nodes`color
      ensures ShortAt(path, t, x) && Inorder(Plug(path, t)) == Inorder(Plug(path0, t0))
      ensures Depth(path) < Depth(path0) || (Depth(path) == Depth(path0) && IsRed(t))
    {
      hide At;
      x, path, t := x0, path0, t0;
      var w;
      w, path := BlackSiblingRight(x, path, t);
      SiblingInSight(path, t);
      if w.left.color == Black && w.right.color == Black {
        x, path, t := ReddenSibling(x, w, path, t);
      } else {
        x, t := BorrowFromRight(x, w, path, t);
        path := Top;
      }
    }

    method DeleteFixup(x0: RbNode, ghost path0: Path<RbNode>, ghost t0: Shape<RbNode>) returns (ghost s: Shape<RbNode>)
      requires ShortAt(path0, t0, x0)
      modifies this`root, nodes`left, nodes`right, nodes`parent, nodes`color, nil`color
      ensures At(Top, s) && Rb(s) && !IsRed(s) && nil.color == Black
      ensures Inorder(s) == Inorder(Plug(path0, t0))
    {
      hide At;
      var x := x0;
      ghost var path, t := path0, t0;
      RootIsAbove(path, t);
      Surroundings(path, t);
      while x != root && x.color == Black
        invariant ShortAt(path, t, x) && Inorder(Plug(path, t)) == Inorder(Plug(path0, t0))
        invariant (x == root <==> path.Top?) && (x.color == Red <==> IsRed(t))
        decreases Depth(path), if IsRed(t) then 0 else 1
      {
        ShortHasSibling(path, t);
        SiblingInSight(path, t);
        if x == x.parent.left {
          x, path, t := DeleteRoundLeft(x, path, t);
        } else {
          x, path, t := DeleteRoundRight(x, path, t);
        }
        RootIsAbove(path, t);
        Surroundings(path, t);
      }
      s := Plug(path, Dye(t, Black));
      ShortMadeUp(path, t);
      if x != nil {
        Paint(x, Black, path, t);
      } else {
        x.color := Black;    // the same assignment, on the sentinel
      }
      LookFromTop(path, Dye(t, Black));
    }

    // --------------------------------------------------------------- deletion

    twostate predicate Transplanted(u: RbNode, new v: RbNode)
      reads this, nodes, v
      requires nodes == old(nodes)
    {
      var p := old(u.parent);
      && root == (if p == nil then v else old(root)) && v.parent == p
      && forall m <- nodes ::
            && m.left == (if m == p && old(p.left) == u then v else old(m.left))
            && m.right == (if m == p && old(p.left) != u then v else old(m.right))
            && (m != v ==> m.parent == old(m.parent))
            && m.color == old(m.color)
    }

    method Transplant(u: RbNode, v: RbNode)
      requires u in nodes && nil !in nodes && (u.parent in nodes || u.parent == nil)
      modifies this`root, nodes`left, nodes`right, v`parent
      ensures Transplanted(u, v)
    {
      if u.parent == nil {
        root := v;
      } else if u == u.parent.left {
        u.parent.left := v;
      } else {
        u.parent.right := v;
      }
      v.parent := u.parent;
    }

    twostate lemma {:induction false} TransplantedPath(x: Path<RbNode>, new u: RbNode, new v: RbNode)
      requires nodes == old(nodes) && PathNodes(x) <= nodes && PathSep(x) && nil !in nodes
      requires u in nodes && u !in PathNodes(x) && v !in PathNodes(x)
      requires old(PathLinked(x, u, root, nil)) && old(u.parent) == Above(x, nil) && Transplanted(u, v)
      ensures PathLinked(x, v, root, nil)
    {
      assert !x.Top? ==> x.node in PathNodes(x);
      assert x.InRight? && x.left.Node? ==> x.left.node in PathNodes(x);
      PathRefilled(x, u, v);
    }

    // z with the subtree s below it, at the end of x.
    ghost predicate Hanging(x: Path<RbNode>, z: RbNode, s: Shape<RbNode>)
      reads this, nodes
    {
      && nil !in nodes && z in nodes && Nodes(s) <= nodes && PathNodes(x) <= nodes
      && z !in Nodes(s) && z !in PathNodes(x) && Apart(x, s)
      && z.parent == Above(x, nil) && Linked(s, z, nil) && PathLinked(x, z, root, nil)
    }

    method Unhang(z: RbNode, v: RbNode, ghost x: Path<RbNode>, ghost s: Shape<RbNode>)
      requires Hanging(x, z, s) && v == Ptr(s, nil)
      modifies this`root, nodes`left, nodes`right, v`parent
      ensures At(x, s) && v.parent == Above(x, nil)
    {
      assert s.Node? ==> s.node in Nodes(s);
      assert !x.Top? ==> x.node in PathNodes(x);
      Transplant(z, v);
      TransplantedPath(x, z, v);
      if s.Node? {
        LinkedKept(s.left, s.node);
        LinkedKept(s.right, s.node);
      }
    }

    // z has at most the subtree s below it, which takes its place.
    method SpliceOut(z: RbNode, v: RbNode, ghost x: Path<RbNode>, ghost t: Shape<RbNode>, ghost s: Shape<RbNode>)
      requires At(x, t) && t.Node? && z == t.node && v == Ptr(s, nil)
      requires OnlyChild(t, s)
      modifies this`root, nodes`left, nodes`right, v`parent
      ensures At(x, s) && v.parent == Above(x, nil)
    {
      Unhang(z, v, x, s);
    }

    // z, and y about to take its place; par, one of them, holds the right subtree.
    ghost predicate Poised(j: Heir<RbNode>, par: RbNode)
      requires par in nodes
      reads this, nodes
    {
      && nil !in nodes && j.z in nodes && j.y in nodes && j.z != j.y
      && Nodes(j.l) <= nodes && Nodes(j.r) <= nodes && PathNodes(j.x) <= nodes
      && j.z !in Nodes(j.l) && j.z !in Nodes(j.r) && j.z !in PathNodes(j.x)
      && j.y !in Nodes(j.l) && j.y !in Nodes(j.r) && j.y !in PathNodes(j.x)
      && Disjoint(Nodes(j.l), Nodes(j.r)) && Disjoint(Nodes(j.l), PathNodes(j.x)) && Disjoint(Nodes(j.r), PathNodes(j.x))
      && Sep(j.l) && Sep(j.r) && PathSep(j.x) && j.l.Node?
      && j.z.left == Ptr(j.l, nil) && j.z.parent == Above(j.x, nil) && j.z.color == j.c && par.right == Ptr(j.r, nil)
      && Linked(j.l, j.z, nil) && Linked(j.r, par, nil) && PathLinked(j.x, j.z, root, nil)
    }

    ghost predicate Taking(j: Heir<RbNode>)
      reads this, nodes
    {
      j.y in nodes && Poised(j, j.y)
    }

    twostate predicate StoodIn(z: RbNode, new y: RbNode)
      reads this, nodes
      requires nodes == old(nodes)
    {
      var p, l := old(z.parent), old(z.left);
      && root == (if p == nil then y else old(root))
      && forall m <- nodes ::
            && m.left == (if m == y then l else if m == p && old(p.left) == z then y else old(m.left))
            && m.right == (if m == p && old(p.left) != z then y else old(m.right))
            && m.parent == (if m == y then p else if m == l then y else old(m.parent))
            && m.color == (if m == y then old(z.color) else old(m.color))
    }

    method StandIn(z: RbNode, y: RbNode)
      requires nil !in nodes && z in nodes && y in nodes && z.left in nodes && (z.parent in nodes || z.parent == nil)
      requires z != y && z.left != y && z.parent != z && z.parent != y
      modifies this`root, nodes`left, nodes`right, nodes`parent, nodes`color
      ensures StoodIn(z, y)
    {
      Transplant(z, y);
      y.left := z.left;
      y.left.parent := y;
      y.color := z.color;
    }

    twostate lemma {:induction false} StoodInParts(j: Heir<RbNode>)
      requires nodes == old(nodes)
      requires old(Taking(j)) && StoodIn(j.z, j.y)
      ensures Linked(Node(j.c, j.l, j.y, j.r), Above(j.x, nil), nil)
    {
      assert j.l.node in Nodes(j.l);
      assert !j.x.Top? ==> j.x.node in PathNodes(j.x);
      LinkedKept(j.l.left, j.l.node);
      LinkedKept(j.l.right, j.l.node);
      LinkedKept(j.r, j.y);
    }

    twostate lemma {:induction false} StoodInPath(j: Heir<RbNode>)
      requires nodes == old(nodes)
      requires old(Taking(j)) && StoodIn(j.z, j.y)
      ensures PathLinked(j.x, j.y, root, nil)
    {
      assert j.l.node in Nodes(j.l);
      assert !j.x.Top? ==> j.x.node in PathNodes(j.x);
      assert j.x.InRight? && j.x.left.Node? ==> j.x.left.node in PathNodes(j.x);
      PathRefilled(j.x, j.z, j.y);
    }

    method TakePlace(z: RbNode, y: RbNode, ghost j: Heir<RbNode>)
      requires Taking(j) && z == j.z && y == j.y
      modifies this`root, nodes`left, nodes`right, nodes`parent, nodes`color
      ensures At(j.x, Node(j.c, j.l, y, j.r))
    {
      assert j.l.node in Nodes(j.l);
      assert !j.x.Top? ==> j.x.node in PathNodes(j.x);
      StandIn(z, y);
      StoodInParts(j);
      StoodInPath(j);
    }

    // rbtree_mini: down the left children of z's right child.
    method Mini(x0: RbNode, ghost base: Path<RbNode>, ghost t0: Shape<RbNode>)
      returns (y: RbNode, ghost chain: Path<RbNode>, ghost t: Shape<RbNode>)
      requires At(base, t0) && t0.Node? && x0 == t0.node
      ensures At(Concat(chain, base), t) && Plug(chain, t) == t0 && AllLeft(chain)
      ensures t.Node? && t.left.Leaf? && y == t.node
      ensures Inorder(t0) != [] && y == Inorder(t0)[0]
    {
      y, chain, t := x0, Top, t0;
      Surroundings(Concat(chain, base), t);
      while y.left != nil
        invariant At(Concat(chain, base), t) && Plug(chain, t) == t0 && AllLeft(chain)
        invariant t.Node? && y == t.node && y.left == Ptr(t.left, nil)
        decreases t
      {
        y := y.left;
        Look(InLeft(t.color, t.node, t.right, Concat(chain, base)), t.left);
        chain, t := InLeft(t.color, t.node, t.right, chain), t.left;
        Surroundings(Concat(chain, base), t);
      }
      LeftmostIsFirst(chain, t);
    }

    // y, the least node below the end of x, leaves its place to its right child.
    method TakeOutMin(y: RbNode, ghost x: Path<RbNode>, ghost chain: Path<RbNode>, ghost m: Shape<RbNode>)
      requires At(Concat(chain, x), m) && m.Node? && m.left.Leaf? && y == m.node && !chain.Top?
      modifies this`root, nodes`left, nodes`right, nodes`parent, nil`parent
      ensures At(x, Plug(chain, m.right)) && Plug(chain, m.right).Node?
      ensures y !in PathNodes(x) && y !in Nodes(Plug(chain, m.right)) && y in nodes
      ensures Ptr(m.right, nil).parent == chain.node
    {
      Surroundings(Concat(chain, x), m);
      SpliceOut(y, y.right, Concat(chain, x), m, m.right);
      LookFrom(chain, x, m.right);
      ConcatNodes(chain, x, m.right);
      assert y !in PathNodes(Concat(chain, x)) + Nodes(m.right);
    }

    // y takes the right subtree of z.
    method HandOver(z: RbNode, y: RbNode, ghost j: Heir<RbNode>)
      requires z == j.z && y == j.y && z in nodes && Poised(j, z) && j.r.Node?
      modifies nodes`right, nodes`parent
      ensures Taking(j)
    {
      assert Linked(j.r.left, j.r.node, nil) && Linked(j.r.right, j.r.node, nil);
      y.right := z.right;
      y.right.parent := y;
      assert j.r.node in Nodes(j.r);
      LinkedKept(j.r.left, j.r.node);
      LinkedKept(j.r.right, j.r.node);
      LinkedKept(j.l, z);
      PathKept(j.x, z);
    }

    lemma {:induction false} PoisedWithRight(z: RbNode, y: RbNode, x: Path<RbNode>, t: Shape<RbNode>)
      requires At(x, t) && t.Node? && z == t.node && t.left.Node?
      requires y in nodes && y !in Nodes(t) && y !in PathNodes(x)
      ensures z in nodes && Poised(Heir(x, z, y, t.color, t.left, t.right), z)
    {}

    // y is the right child of z itself, without a left child.
    lemma {:induction false} RightChildTakes(z: RbNode, y: RbNode, x: Path<RbNode>, t: Shape<RbNode>)
      requires At(x, t) && t.Node? && z == t.node && t.left.Node?
      requires t.right.Node? && t.right.left.Leaf? && y == t.right.node
      ensures Taking(Heir(x, z, y, t.color, t.left, t.right.right))
    {
      assert Linked(t.right, z, nil) && Sep(t.right) && y in Nodes(t.right);
    }

    // y, the least node on the right of z but not its child, gets ready to take
    // the place of z.
    method DetachFar(z: RbNode, y: RbNode, ghost path: Path<RbNode>, ghost t: Shape<RbNode>,
                     ghost chain: Path<RbNode>, ghost m: Shape<RbNode>)
      requires At(path, t) && t.Node? && z == t.node && t.left.Node?
      requires m.Node? && m.left.Leaf? && Plug(chain, m) == t.right && y == m.node && !chain.Top?
      modifies this`root, nodes`left, nodes`right, nodes`parent, nil`parent
      ensures Taking(Heir(path, z, y, t.color, t.left, Plug(chain, m.right)))
      ensures m.right.Leaf? ==> nil.parent == chain.node
    {
      ghost var base, r := InRight(t.color, t.left, z, path), Plug(chain, m.right);
      Look(base, t.right);
      LookFrom(chain, base, m);
      TakeOutMin(y, base, chain, m);
      Look(base, r);
      assert y != z;
      PoisedWithRight(z, y, path, Node(t.color, t.left, z, r));
      HandOver(z, y, Heir(path, z, y, t.color, t.left, r));
    }

    method Detach(z: RbNode, y: RbNode, x: RbNode, ghost path: Path<RbNode>, ghost t: Shape<RbNode>,
                  ghost chain: Path<RbNode>, ghost m: Shape<RbNode>)
      requires At(path, t) && t.Node? && z == t.node && t.left.Node?
      requires m.Node? && m.left.Leaf? && Plug(chain, m) == t.right && y == m.node && x == Ptr(m.right, nil)
      requires y.parent == z <==> chain.Top?
      modifies this`root, nodes`left, nodes`right, nodes`parent, nil`parent
      ensures Taking(Heir(path, z, y, t.color, t.left, Plug(chain, m.right)))
      ensures m.right.Leaf? ==> nil.parent == if chain.Top? then y else chain.node
    {
      if y.parent == z {
        RightChildTakes(z, y, path, t);
        x.parent := y;
        assert Taking(Heir(path, z, y, t.color, t.left, m.right));
      } else {
        DetachFar(z, y, path, t, chain, m);
      }
    }

    lemma {:induction false} OtherFrame(chain: Path<RbNode>, base: Path<RbNode>, t: Shape<RbNode>, z: RbNode)
      requires At(Concat(chain, base), t) && !chain.Top? && z in PathNodes(base)
      ensures chain.node != z
    {
      FrameIsNew(chain, base, z);
    }

    // z has two children: the least node y on its right takes its place. The
    // place that y left, with x in it, is where a fixup has to start.
    method UnlinkInner(z: RbNode, ghost path: Path<RbNode>, ghost t: Shape<RbNode>)
      returns (y: RbNode, x: RbNode, c: Color, ghost chain: Path<RbNode>, ghost m: Shape<RbNode>)
      requires At(path, t) && t.Node? && z == t.node && t.left.Node? && t.right.Node?
      modifies this`root, nodes`left, nodes`right, nodes`parent, nodes`color, nil`parent
      ensures AllLeft(chain) && m.Node? && m.left.Leaf? && Plug(chain, m) == t.right && y == m.node && c == m.color
      ensures At(Concat(chain, InRight(t.color, t.left, y, path)), m.right) && x == Ptr(m.right, nil)
      ensures x.parent == if chain.Top? then y else chain.node
    {
      hide At;
      ghost var base := InRight(t.color, t.left, z, path);
      Surroundings(path, t);
      Look(base, t.right);
      y, chain, m := Mini(z.right, base, t.right);
      Surroundings(Concat(chain, base), m);
      c := y.color;
      x := y.right;
      if !chain.Top? { OtherFrame(chain, base, m, z); }
      Detach(z, y, x, path, t, chain, m);
      TakePlace(z, y, Heir(path, z, y, t.color, t.left, Plug(chain, m.right)));
      base := InRight(t.color, t.left, y, path);
      Look(base, Plug(chain, m.right));
      LookFrom(chain, base, m.right);
      Surroundings(Concat(chain, base), m.right);
    }

    method UnlinkOuter(z: RbNode, v: RbNode, ghost path: Path<RbNode>, ghost t: Shape<RbNode>, ghost s: Shape<RbNode>)
      returns (x: RbNode)
      requires At(path, t) && t.Node? && z == t.node && v == Ptr(s, nil)
      requires OnlyChild(t, s)
      modifies this`root, nodes`left, nodes`right, nodes`parent, nil`parent
      ensures At(path, s) && x == Ptr(s, nil) && x.parent == Above(path, nil)
    {
      assert v in nodes || v == nil by { if s.Node? { assert s.node in Nodes(s); } }
      SpliceOut(z, v, path, t, s);
      x := v;
    }

    lemma {:induction false} ChildOrSentinel(x: Path<RbNode>, t: Shape<RbNode>)
      requires At(x, t) && t.Node?
      ensures (t.left.Leaf? <==> t.node.left == nil) && (t.right.Leaf? <==> t.node.right == nil)
    {
      assert t.left.Node? ==> t.left.node in Nodes(t.left);
      assert t.right.Node? ==> t.right.node in Nodes(t.right);
    }

    // rbtree_delete: the node z goes, and all else stays in order.
    method Delete(z: RbNode, ghost path: Path<RbNode>, ghost t: Shape<RbNode>) returns (ghost s: Shape<RbNode>)
      requires At(path, t) && t.Node? && z == t.node && nil.color == Black
      requires Rb(Plug(path, t)) && !IsRed(Plug(path, t))
      modifies this`root, nodes`left, nodes`right, nodes`parent, nodes`color, nil`parent, nil`color
      ensures At(Top, s) && Rb(s) && !IsRed(s) && nil.color == Black
      ensures Inorder(s) == Around(path, Inorder(t.left) + Inorder(t.right))
    {
      hide At;
      ghost var px, tx := path, t.right;
      var y, c, x := z, z.color, nil;
      Surroundings(path, t);
      ChildOrSentinel(path, t);
      if z.left == nil {
        OuterTakenOut(path, t, t.right);
        OuterListing(path, t, t.right);
        x := UnlinkOuter(z, z.right, path, t, t.right);
      } else if z.right == nil {
        tx := t.left;
        OuterTakenOut(path, t, t.left);
        OuterListing(path, t, t.left);
        x := UnlinkOuter(z, z.left, path, t, t.left);
      } else {
        ghost var chain, m;
        y, x, c, chain, m := UnlinkInner(z, path, t);
        InnerTakenOut(path, t, chain, m);
        InnerListing(path, t, chain, m);
        px, tx := Concat(chain, InRight(t.color, t.left, y, path)), m.right;
      }
      if c == Black {
        s := DeleteFixup(x, px, tx);
      } else {
        s := Plug(px, tx);
        LookFromTop(px, tx);
      }
    }

    // -------------------------------------------------------- public interface

    ghost predicate Valid()
      reads this, nodes`left, nodes`right, nodes`parent, nodes`color, nil`left, nil`right, nil`color
    {
      && At(Top, shape) && Rb(shape) && !IsRed(shape) && Ordered(Inorder(shape))
      && nil.color == Black && nil.left == nil && nil.right == nil
    }

    ghost function Contents(): T.Table
      reads this, Elems(Inorder(shape))`value, Elems(Inorder(shape))`expire
    {
      TableOf(Inorder(shape))
    }

    lemma {:induction false} NotSentinel(path: Path<RbNode>, t: Shape<RbNode>)
      requires At(path, t)
      ensures Ptr(t, nil) == nil <==> t.Leaf?
    {
      if t.Node? {
        assert t.node in Nodes(t);
      }
    }

    // rbtree_search
    method Search(key: Bytes) returns (node: RbNode, ghost path: Path<RbNode>, ghost t: Shape<RbNode>)
      requires Valid()
      ensures At(path, t) && Plug(path, t) == shape && Brackets(path, key)
      ensures node == Ptr(t, nil) && (node == nil <==> t.Leaf?) && (t.Node? ==> node.key == key)
      ensures Contents() == old(Contents())
    {
      ListedNodes(Top, shape);
      node, path, t := root, Top, shape;
      NotSentinel(path, t);
      while node != nil
        invariant At(path, t) && Plug(path, t) == shape && Brackets(path, key)
        invariant node == Ptr(t, nil) && (node == nil <==> t.Leaf?)
        decreases t
      {
        Surroundings(path, t);
        var cmp := Compare(key, node.key);
        BracketsNarrow(path, t, key);
        if cmp < 0 {
          node := node.left;
          path, t := InLeft(t.color, t.node, t.right, path), t.left;
          Look(path, t);
          NotSentinel(path, t);
        } else if cmp > 0 {
          node := node.right;
          path, t := InRight(t.color, t.left, t.node, path), t.right;
          Look(path, t);
          NotSentinel(path, t);
        } else {
          CompareSymmetric(key, node.key);
          return;
        }
      }
    }

    // rbtree_find_parent: the node, or where it would hang.
    method FindParent(key: Bytes)
      returns (node: RbNode, parent: RbNode, cmp: int, ghost path: Path<RbNode>, ghost t: Shape<RbNode>)
      requires Valid()
      ensures At(path, t) && Plug(path, t) == shape && Brackets(path, key)
      ensures node == Ptr(t, nil) && (node == nil <==> t.Leaf?) && (t.Node? ==> node.key == key)
      ensures Contents() == old(Contents())
      ensures t.Leaf? ==> parent == Above(path, nil) && (path.InLeft? ==> cmp < 0) && (path.InRight? ==> cmp > 0)
    {
      ListedNodes(Top, shape);
      node, path, t := root, Top, shape;
      NotSentinel(path, t);
      parent, cmp := nil, 0;
      while node != nil
        invariant At(path, t) && Plug(path, t) == shape && Brackets(path, key)
        invariant node == Ptr(t, nil) && (node == nil <==> t.Leaf?)
        invariant parent == Above(path, nil) && (path.InLeft? ==> cmp < 0) && (path.InRight? ==> cmp > 0)
        decreases t
      {
        Surroundings(path, t);
        parent := node;
        cmp := Compare(key, node.key);
        BracketsNarrow(path, t, key);
        if cmp < 0 {
          node := node.left;
          path, t := InLeft(t.color, t.node, t.right, path), t.left;
          Look(path, t);
          NotSentinel(path, t);
        } else if cmp > 0 {
          node := node.right;
          path, t := InRight(t.color, t.left, t.node, path), t.right;
          Look(path, t);
          NotSentinel(path, t);
        } else {
          CompareSymmetric(key, node.key);
          return;
        }
      }
    }

    // A new red leaf, linked where FindParent says.
    method Link(z: RbNode, parent: RbNode, cmp: int, ghost path: Path<RbNode>)
      requires At(path, Leaf) && z !in nodes && z != nil
      requires parent == Above(path, nil) && (path.InLeft? ==> cmp < 0) && (path.InRight? ==> cmp > 0)
      requires z.left == nil && z.right == nil && z.color == Red
      modifies this`root, this`nodes, z`parent, nodes`left, nodes`right
      ensures nodes == old(nodes) + {z} && At(path, Node(Red, Leaf, z, Leaf))
    {
      z.parent := parent;
      nodes := nodes + {z};
      if parent == nil {
        root := z;
      } else if cmp < 0 {
        parent.left := z;
      } else {
        parent.right := z;
      }
      assert PathLinked(path, z, root, nil);
    }

    lemma {:induction false} ListedNodes(x: Path<RbNode>, t: Shape<RbNode>)
      requires At(x, t)
      ensures Elems(Inorder(Plug(x, t))) <= nodes
    {
      PlugNodes(x, t);
      NodesAreListed(Plug(x, t));
    }

    method HangNew(key: Bytes, value: Bytes, expire: int, parent: RbNode, cmp: int, ghost path: Path<RbNode>)
      returns (z: RbNode)
      requires At(path, Leaf)
      requires parent == Above(path, nil) && (path.InLeft? ==> cmp < 0) && (path.InRight? ==> cmp > 0)
      modifies this`root, this`nodes, nodes`left, nodes`right
      ensures fresh(z) && nodes == old(nodes) + {z} && At(path, Node(Red, Leaf, z, Leaf))
      ensures z.key == key && z.value == value && z.expire == expire
    {
      z := new RbNode.Entry(key, value, expire, nil);
      Link(z, parent, cmp, path);
    }

    method HangInOrder(key: Bytes, value: Bytes, expire: int, parent: RbNode, cmp: int, ghost path: Path<RbNode>)
      returns (z: RbNode)
      requires At(path, Leaf) && Ordered(Inorder(Plug(path, Leaf))) && Brackets(path, key)
      requires parent == Above(path, nil) && (path.InLeft? ==> cmp < 0) && (path.InRight? ==> cmp > 0)
      modifies this`root, this`nodes, nodes`left, nodes`right
      ensures fresh(z) && nodes == old(nodes) + {z} && At(path, Node(Red, Leaf, z, Leaf))
      ensures Ordered(Inorder(Plug(path, Node(Red, Leaf, z, Leaf))))
      ensures TableOf(Inorder(Plug(path, Node(Red, Leaf, z, Leaf))))
           == T.Set(old(TableOf(Inorder(Plug(path, Leaf)))), key, value, expire)
    {
      ghost var s := Inorder(Plug(path, Leaf));
      ghost var table := TableOf(s);
      ListedNodes(path, Leaf);
      z := HangNew(key, value, expire, parent, cmp, path);
      assert TableOf(s) == table;
      TableWith(path, z);
    }

    method InsertNew(key: Bytes, value: Bytes, expire: int, parent: RbNode, cmp: int, ghost path: Path<RbNode>)
      requires Valid() && At(path, Leaf) && Plug(path, Leaf) == shape && Brackets(path, key)
      requires parent == Above(path, nil) && (path.InLeft? ==> cmp < 0) && (path.InRight? ==> cmp > 0)
      modifies this, nodes`left, nodes`right, nodes`parent, nodes`color
      ensures Valid() && nodes >= old(nodes) && fresh(nodes - old(nodes))
      ensures Contents() == T.Set(old(Contents()), key, value, expire)
    {
      hide At;
      Surroundings(path, Leaf);
      UnplugRb(path, Leaf);
      var z := HangInOrder(key, value, expire, parent, cmp, path);
      shape := Rebalance(z, path);
    }

    // The fixup after a new red leaf z, and the table it keeps.
    method Rebalance(z: RbNode, ghost path: Path<RbNode>) returns (ghost s: Shape<RbNode>)
      requires At(path, Node(Red, Leaf, z, Leaf)) && PathRb(path, 0) && nil.color == Black
      modifies this`root, nodes`left, nodes`right, nodes`parent, nodes`color
      ensures At(Top, s) && Rb(s) && !IsRed(s) && nil.color == Black && nil.left == old(nil.left) && nil.right == old(nil.right)
      ensures Inorder(s) == Inorder(Plug(path, Node(Red, Leaf, z, Leaf)))
      ensures TableOf(Inorder(s)) == old(TableOf(Inorder(Plug(path, Node(Red, Leaf, z, Leaf)))))
    {
      ghost var t := Node(Red, Leaf, z, Leaf);
      RedLeafRises(path, z);
      ListedNodes(path, t);
      ghost var l := Inorder(Plug(path, t));
      ghost var table := TableOf(l);
      s := InsertFixup(z, path, t);
      assert TableOf(l) == table;
    }

    lemma {:induction false} OthersListed(x: Path<RbNode>, t: Shape<RbNode>)
      requires At(x, t) && t.Node?
      ensures Elems(Around(x, Inorder(t.left) + Inorder(t.right))) <= nodes
    {
      ListedNodes(x, t);
      InorderOfPlug(x, t);
      Flatten(Before(x), Inorder(t.left), t.node, Inorder(t.right), After(x));
    }

    method DeleteKeeping(z: RbNode, ghost path: Path<RbNode>, ghost t: Shape<RbNode>, ghost rest: seq<RbNode>)
      returns (ghost s: Shape<RbNode>)
      requires At(path, t) && t.Node? && z == t.node && nil.color == Black
      requires Rb(Plug(path, t)) && !IsRed(Plug(path, t)) && rest == Around(path, Inorder(t.left) + Inorder(t.right))
      modifies this`root, nodes`left, nodes`right, nodes`parent, nodes`color, nil`parent, nil`color
      ensures At(Top, s) && Rb(s) && !IsRed(s) && nil.color == Black && Inorder(s) == rest
      ensures TableOf(rest) == old(TableOf(rest))
    {
      OthersListed(path, t);
      hide *;
      s := Delete(z, path, t);
    }

    method RemoveNode(z: RbNode, ghost path: Path<RbNode>, ghost t: Shape<RbNode>)
      requires Valid() && At(path, t) && Plug(path, t) == shape && t.Node? && z == t.node
      modifies this`root, this`shape, nodes`left, nodes`right, nodes`parent, nodes`color, nil`parent, nil`color
      ensures Valid() && z.key in old(Contents()) && Contents() == old(Contents()) - {z.key}
    {
      hide At;
      Surroundings(path, t);
      TableWithout(path, t);
      shape := DeleteKeeping(z, path, t, Around(path, Inorder(t.left) + Inorder(t.right)));
    }

    method Overwrite(node: RbNode, value: Bytes, expire: int, ghost path: Path<RbNode>, ghost t: Shape<RbNode>)
      requires t.Node? && node == t.node && Ordered(Inorder(Plug(path, t)))
      modifies node`value, node`expire
      ensures TableOf(Inorder(Plug(path, t))) == T.Set(old(TableOf(Inorder(Plug(path, t)))), node.key, value, expire)
    {
      ghost var s := Around(path, Inorder(t.left) + Inorder(t.right));
      TableWithout(path, t);
      OverwriteApart(node, value, expire, s);
      TableWithout(path, t);
    }

    method OverwriteApart(node: RbNode, value: Bytes, expire: int, ghost others: seq<RbNode>)
      requires node !in others
      modifies node`value, node`expire
      ensures node.value == value && node.expire == expire && TableOf(others) == old(TableOf(others))
    {
      assert node !in Elems(others);
      node.value := value;
      node.expire := expire;
    }

    method UpdateInPlace(node: RbNode, value: Bytes, expire: int, ghost path: Path<RbNode>, ghost t: Shape<RbNode>)
      requires Valid() && Plug(path, t) == shape && t.Node? && node == t.node
      modifies node`value, node`expire
      ensures Valid() && Contents() == T.Set(old(Contents()), node.key, value, expire)
    {
      Overwrite(node, value, expire, path, t);
    }

    // The second search of a set that has deleted the key. The source gives up
    // if it finds the key again; it cannot.
    method FindVacancy(key: Bytes) returns (parent: RbNode, cmp: int, ghost path: Path<RbNode>)
      requires Valid() && key !in Contents()
      ensures At(path, Leaf) && Plug(path, Leaf) == shape && Brackets(path, key)
      ensures parent == Above(path, nil) && (path.InLeft? ==> cmp < 0) && (path.InRight? ==> cmp > 0)
      ensures Contents() == old(Contents())
    {
      var existing;
      ghost var t;
      existing, parent, cmp, path, t := FindParent(key);
      if existing != nil {
        Found(path, t);
        assert false;
      }
    }

    method DeleteAndInsert(node: RbNode, key: Bytes, value: Bytes, expire: int,
                           ghost path0: Path<RbNode>, ghost t0: Shape<RbNode>)
      requires Valid() && At(path0, t0) && Plug(path0, t0) == shape && t0.Node? && node == t0.node && node.key == key
      modifies this, nodes`left, nodes`right, nodes`parent, nodes`color, nil`parent, nil`color
      ensures Valid() && nodes >= old(nodes) && fresh(nodes - old(nodes))
      ensures Contents() == T.Set(old(Contents()), key, value, expire)
    {
      hide At;
      RemoveNode(node, path0, t0);
      ghost var path;
      var parent, cmp;
      parent, cmp, path := FindVacancy(key);
      InsertNew(key, value, expire, parent, cmp, path);
    }

    // kvs_rbtree_set: in place when the new value fits, otherwise by deleting
    // and inserting again.
    method Set(key: Bytes, value: Bytes, expire: int) returns (ret: int)
      requires Valid()
      modifies this, nodes, nil`parent, nil`color
      ensures Valid() && nodes >= old(nodes) && fresh(nodes - old(nodes))
      ensures ret == 0 && Contents() == T.Set(old(Contents()), key, value, expire)
    {
      ghost var path, t;
      var existing, parent, cmp;
      existing, parent, cmp, path, t := FindParent(key);
      if existing != nil {
        Surroundings(path, t);
        if |value| <= |existing.value| {
          UpdateInPlace(existing, value, expire, path, t);
        } else {
          DeleteAndInsert(existing, key, value, expire, path, t);
        }
        return 0;
      }
      InsertNew(key, value, expire, parent, cmp, path);
      ret := 0;
    }

    // kvs_rbtree_del
    method Del(key: Bytes) returns (ret: int)
      requires Valid()
      modifies this`root, this`shape, nodes`left, nodes`right, nodes`parent, nodes`color, nil`parent, nil`color
      ensures Valid()
      ensures ret == if key in old(Contents()) then 0 else 1
      ensures Contents() == old(Contents()) - {key}
    {
      ghost var path, t;
      var node;
      node, path, t := Search(key);
      if node == nil {
        Missing(path, key);
        return 1;
      }
      RemoveNode(node, path, t);
      ret := 0;
    }

    lemma {:induction false} Missing(path: Path<RbNode>, key: Bytes)
      requires Plug(path, Leaf) == shape && Brackets(path, key)
      ensures key !in Contents()
    {
      InorderOfPlug(path, Leaf);
      assert Before(path) + [] + After(path) == Before(path) + After(path);
      BracketsMiss(path, key);
    }

    lemma {:induction false} Found(path: Path<RbNode>, t: Shape<RbNode>)
      requires Valid() && Plug(path, t) == shape && t.Node?
      ensures t.node.key in Contents() && Contents()[t.node.key] == T.Entry(t.node.value, t.node.expire)
    {
      TableWithout(path, t);
    }

    // kvs_rbtree_get
    method Get(key: Bytes, ttl: bool, now: int) returns (value: Option<Bytes>)
      requires Valid()
      modifies this`root, this`shape, nodes`left, nodes`right, nodes`parent, nodes`color, nil`parent, nil`color
      ensures Valid()
      ensures value == T.Get(old(Contents()), key, ttl, now)
      ensures Contents() == T.AfterGet(old(Contents()), key, ttl, now)
      ensures value == if key in old(Contents()) && !(ttl && 0 < old(Contents())[key].expire < now) then Some(old(Contents())[key].value) else None
      ensures Contents() == if key in old(Contents()) && ttl && 0 < old(Contents())[key].expire < now then old(Contents()) - {key} else old(Contents())
    {
      ghost var path, t;
      var node;
      node, path, t := Search(key);
      if node == nil {
        Missing(path, key);
        return None;
      }
      Found(path, t);
      if ttl && node.expire > 0 {
        if now > node.expire {
          var _ := Del(key);
          return None;
        }
      }
      value := Some(node.value);
    }

    // kvs_rbtree_del_if_expired
    method DelIfExpired(key: Bytes, expected: int) returns (ret: int)
      requires Valid()
      modifies this`root, this`shape, nodes`left, nodes`right, nodes`parent, nodes`color, nil`parent, nil`color
      ensures Valid()
      ensures ret == if T.Due(old(Contents()), key, expected) then 1 else 0
      ensures Contents() == T.AfterTimer(old(Contents()), key, expected)
    {
      ghost var path, t;
      var node;
      node, path, t := Search(key);
      if node == nil {
        Missing(path, key);
        return 0;
      }
      Found(path, t);
      if node.expire != expected {
        return 0;
      }
      var _ := Del(key);
      ret := 1;
    }

    // kvs_rbtree_exist: 0 when the key is there.
    method Exist(key: Bytes, ttl: bool, now: int) returns (ret: int)
      requires Valid()
      modifies this`root, this`shape, nodes`left, nodes`right, nodes`parent, nodes`color, nil`parent, nil`color
      ensures Valid()
      ensures ret == if T.Get(old(Contents()), key, ttl, now).Some? then 0 else 1
      ensures Contents() == T.AfterGet(old(Contents()), key, ttl, now)
    {
      var res := Get(key, ttl, now);
      ret := if res.None? then 1 else 0;
    }

    // rbtree_foreach_node: the calls it makes to its callback, in order.
    function ForEachNode(node: RbNode, ttl: bool, now: int, ghost t: Shape<RbNode>, ghost par: RbNode)
      : (calls: seq<T.Visit>)
      requires Linked(t, par, nil) && node == Ptr(t, nil) && nil !in Nodes(t)
      reads Nodes(t)
      ensures calls == Live(Inorder(t), ttl, now)
      decreases t
    {
      assert t.Node? ==> t.node in Nodes(t);
      if node == nil then [] else
        NodesAreListed(t);
        LiveOfNode(t, ttl, now);
        ForEachNode(node.left, ttl, now, t.left, node)
        + (if ttl && node.expire > 0 && now > node.expire then [] else [(node.key, T.Entry(node.value, node.expire))])
        + ForEachNode(node.right, ttl, now, t.right, node)
    }

    // kvs_rbtree_foreach
    method ForEach(ttl: bool, clock: int) returns (calls: seq<T.Visit>)
      requires Valid()
      ensures T.Listing(Contents(), ttl, clock, calls)
    {
      var now := 0;
      if ttl {
        now := clock;
      }
      calls := ForEachNode(root, ttl, now, shape, nil);
      LiveIsListing(Inorder(shape), ttl, now);
    }

    lemma {:induction false} HeightBound(k: nat)
      requires Valid() && Size(shape) + 1 < Pow2(k + 1)
      ensures Height(shape) <= 2 * k
    {
      HeightIsLogarithmic(shape, k);
    }
  }
}
