// The shape of a red-black tree as a value: subtrees, and the path from a
// subtree up to the root. The pointer algorithms of RbTree are proved against
// these; a (path, subtree) pair is the place where a fixup loop is working.
module RbShape {

  datatype Color = Red | Black

  datatype Shape<N> =
    | Leaf
    | Node(color: Color, left: Shape<N>, node: N, right: Shape<N>)

  // The hole is the left (InLeft) or right (InRight) child of node.
  datatype Path<N> =
    | Top
    | InLeft(color: Color, node: N, right: Shape<N>, up: Path<N>)
    | InRight(color: Color, left: Shape<N>, node: N, up: Path<N>)

  function Plug<N>(x: Path<N>, t: Shape<N>): Shape<N> {
    match x
    case Top => t
    case InLeft(c, n, r, up) => Plug(up, Node(c, t, n, r))
    case InRight(c, l, n, up) => Plug(up, Node(c, l, n, t))
  }

  function Depth<N>(x: Path<N>): nat {
    if x.Top? then 0 else 1 + Depth(x.up)
  }

  // One level up: the subtree at the end of x.up whose hole holds t.
  function Fill<N>(x: Path<N>, t: Shape<N>): (r: Shape<N>)
    requires !x.Top?
    ensures r.Node? && Plug(x.up, r) == Plug(x, t)
  {
    if x.InLeft? then Node(x.color, t, x.node, x.right) else Node(x.color, x.left, x.node, t)
  }

  function Sibling<N>(x: Path<N>): Shape<N>
    requires !x.Top?
  {
    if x.InLeft? then x.right else x.left
  }

  // The path to the sibling of the hole, when t is in the hole.
  function Across<N>(x: Path<N>, t: Shape<N>): Path<N>
    requires !x.Top?
  {
    if x.InLeft? then InRight(x.color, t, x.node, x.up) else InLeft(x.color, x.node, t, x.up)
  }

  function WithSibling<N>(x: Path<N>, s: Shape<N>): Path<N>
    requires !x.Top?
  {
    if x.InLeft? then InLeft(x.color, x.node, s, x.up) else InRight(x.color, s, x.node, x.up)
  }

  function WithColor<N>(x: Path<N>, c: Color): Path<N>
    requires !x.Top?
  {
    if x.InLeft? then InLeft(c, x.node, x.right, x.up) else InRight(c, x.left, x.node, x.up)
  }

  function Dye<N>(t: Shape<N>, c: Color): Shape<N> {
    if t.Node? then Node(c, t.left, t.node, t.right) else Leaf
  }

  // The path chain, continued by base.
  function Concat<N>(chain: Path<N>, base: Path<N>): Path<N> {
    match chain
    case Top => base
    case InLeft(c, n, r, up) => InLeft(c, n, r, Concat(up, base))
    case InRight(c, l, n, up) => InRight(c, l, n, Concat(up, base))
  }

  predicate AllLeft<N>(x: Path<N>) {
    x.Top? || (x.InLeft? && AllLeft(x.up))
  }

  // ---------------------------------------------------------------- contents

  ghost function Nodes<N>(t: Shape<N>): set<N> {
    match t
    case Leaf => {}
    case Node(_, l, n, r) => Nodes(l) + {n} + Nodes(r)
  }

  ghost function PathNodes<N>(x: Path<N>): set<N> {
    match x
    case Top => {}
    case InLeft(_, n, r, up) => {n} + Nodes(r) + PathNodes(up)
    case InRight(_, l, n, up) => {n} + Nodes(l) + PathNodes(up)
  }

  ghost predicate Disjoint<N>(a: set<N>, b: set<N>) {
    forall n <- a :: n !in b
  }

  // No node occurs twice.
  ghost predicate Sep<N>(t: Shape<N>) {
    match t
    case Leaf => true
    case Node(_, l, n, r) =>
      && Sep(l) && Sep(r)
      && n !in Nodes(l) && n !in Nodes(r) && Disjoint(Nodes(l), Nodes(r))
  }

  ghost predicate PathSep<N>(x: Path<N>) {
    match x
    case Top => true
    case InLeft(_, n, r, up) =>
      && Sep(r) && PathSep(up)
      && n !in Nodes(r) && n !in PathNodes(up) && Disjoint(Nodes(r), PathNodes(up))
    case InRight(_, l, n, up) =>
      && Sep(l) && PathSep(up)
      && n !in Nodes(l) && n !in PathNodes(up) && Disjoint(Nodes(l), PathNodes(up))
  }

  ghost predicate Apart<N>(x: Path<N>, t: Shape<N>) {
    Sep(t) && PathSep(x) && Disjoint(Nodes(t), PathNodes(x))
  }

  ghost function Inorder<N>(t: Shape<N>): seq<N> {
    match t
    case Leaf => []
    case Node(_, l, n, r) => Inorder(l) + [n] + Inorder(r)
  }

  ghost function Elems<N>(s: seq<N>): set<N> {
    set n | n in s
  }

  // What stands before and after the hole in the in-order listing.
  ghost function Before<N>(x: Path<N>): seq<N> {
    match x
    case Top => []
    case InLeft(_, _, _, up) => Before(up)
    case InRight(_, l, n, up) => Before(up) + (Inorder(l) + [n])
  }

  ghost function After<N>(x: Path<N>): seq<N> {
    match x
    case Top => []
    case InLeft(_, n, r, up) => [n] + Inorder(r) + After(up)
    case InRight(_, _, _, up) => After(up)
  }

  lemma {:induction false} Regroup<N>(p: seq<N>, t: seq<N>, n: N, r: seq<N>, q: seq<N>)
    ensures p + (t + [n] + r) + q == p + t + ([n] + r + q)
    ensures p + (r + [n] + t) + q == p + (r + [n]) + t + q
  {}

  lemma {:induction false} Flatten<N>(p: seq<N>, l: seq<N>, n: N, r: seq<N>, q: seq<N>)
    ensures p + (l + [n] + r) + q == (p + l) + [n] + (r + q)
    ensures p + (l + r) + q == (p + l) + (r + q)
  {}

  lemma {:induction false} InorderOfPlug<N>(x: Path<N>, t: Shape<N>)
    ensures Inorder(Plug(x, t)) == Before(x) + Inorder(t) + After(x)
    decreases x
  {
    match x
    case Top =>
      assert Inorder(t) == [] + Inorder(t) + [];
    case InLeft(c, n, r, up) =>
      InorderOfPlug(up, Node(c, t, n, r));
      Regroup(Before(up), Inorder(t), n, Inorder(r), After(up));
    case InRight(c, l, n, up) =>
      InorderOfPlug(up, Node(c, l, n, t));
      Regroup(Before(up), Inorder(t), n, Inorder(l), After(up));
  }

  // Replacing a subtree by one with the same listing keeps the whole listing.
  lemma {:induction false} SameListing<N>(x: Path<N>, t: Shape<N>, t': Shape<N>)
    requires Inorder(t) == Inorder(t')
    ensures Inorder(Plug(x, t)) == Inorder(Plug(x, t'))
  {
    InorderOfPlug(x, t);
    InorderOfPlug(x, t');
  }

  lemma {:induction false} NodesAreListed<N>(t: Shape<N>)
    ensures Nodes(t) == Elems(Inorder(t))
  {
    match t
    case Leaf =>
    case Node(_, l, n, r) =>
      NodesAreListed(l);
      NodesAreListed(r);
  }

  lemma {:induction false} PlugNodes<N>(x: Path<N>, t: Shape<N>)
    ensures Nodes(Plug(x, t)) == PathNodes(x) + Nodes(t)
    ensures Apart(x, t) ==> Sep(Plug(x, t))
    decreases x
  {
    match x
    case Top =>
    case InLeft(c, n, r, up) => PlugNodes(up, Node(c, t, n, r));
    case InRight(c, l, n, up) => PlugNodes(up, Node(c, l, n, t));
  }

  lemma {:induction false} ConcatNodes<N>(chain: Path<N>, base: Path<N>, t: Shape<N>)
    ensures PathNodes(Concat(chain, base)) + Nodes(t) == PathNodes(base) + Nodes(Plug(chain, t))
    ensures !chain.Top? ==> Plug(chain, t).Node?
    decreases chain
  {
    if !chain.Top? {
      ConcatNodes(chain.up, base, Fill(chain, t));
    }
  }

  lemma {:induction false} FrameIsNew<N>(chain: Path<N>, base: Path<N>, z: N)
    requires PathSep(Concat(chain, base)) && !chain.Top? && z in PathNodes(base)
    ensures chain.node != z
  {
    ConcatNodes(chain.up, base, Leaf);
    PlugNodes(chain.up, Leaf);
  }

  // Two neighbours m and n with the subtrees a, b, r in order around them, at
  // the end of the path x. A rotation goes from one of its two forms to the other.
  datatype Joint<N> = Joint(x: Path<N>, c: Color, a: Shape<N>, m: N, d: Color, b: Shape<N>, n: N, r: Shape<N>) {
    function MOverN(): Shape<N> {
      Node(c, a, m, Node(d, b, n, r))
    }

    function NOverM(): Shape<N> {
      Node(d, Node(c, a, m, b), n, r)
    }
  }

  // A node z at the end of x that y is about to replace, between l and r.
  datatype Heir<N> = Heir(x: Path<N>, z: N, y: N, c: Color, l: Shape<N>, r: Shape<N>)

  // The parts of a joint share nothing.
  ghost predicate Strewn<N>(j: Joint<N>) {
    && j.m != j.n && Sep(j.a) && Sep(j.b) && Sep(j.r) && PathSep(j.x)
    && j.m !in Nodes(j.a) && j.m !in Nodes(j.b) && j.m !in Nodes(j.r) && j.m !in PathNodes(j.x)
    && j.n !in Nodes(j.a) && j.n !in Nodes(j.b) && j.n !in Nodes(j.r) && j.n !in PathNodes(j.x)
    && Disjoint(Nodes(j.a), Nodes(j.b)) && Disjoint(Nodes(j.r), Nodes(j.b)) && Disjoint(Nodes(j.a), Nodes(j.r))
    && Disjoint(Nodes(j.a), PathNodes(j.x)) && Disjoint(Nodes(j.b), PathNodes(j.x)) && Disjoint(Nodes(j.r), PathNodes(j.x))
  }

  ghost predicate Within<N>(j: Joint<N>, k: set<N>) {
    j.m in k && j.n in k && Nodes(j.a) <= k && Nodes(j.b) <= k && Nodes(j.r) <= k && PathNodes(j.x) <= k
  }

  lemma {:induction false} JointListing<N>(j: Joint<N>)
    ensures Inorder(j.MOverN()) == Inorder(j.NOverM())
    ensures Inorder(Plug(j.x, j.MOverN())) == Inorder(Plug(j.x, j.NOverM()))
  {
    Regroup([], Inorder(j.b), j.n, Inorder(j.a) + [j.m], Inorder(j.r));
    assert Inorder(j.a) + [j.m] + (Inorder(j.b) + [j.n] + Inorder(j.r))
        == Inorder(j.a) + [j.m] + Inorder(j.b) + [j.n] + Inorder(j.r);
    SameListing(j.x, j.MOverN(), j.NOverM());
  }

  lemma {:induction false} StrewnMOverN<N>(j: Joint<N>)
    ensures Apart(j.x, j.MOverN()) <==> Strewn(j)
  {
    var t := Node(j.d, j.b, j.n, j.r);
    if Apart(j.x, j.MOverN()) {
      assert Sep(t) && j.n in Nodes(t);
    } else if Strewn(j) {
      assert Sep(t);
    }
  }

  lemma {:induction false} StrewnNOverM<N>(j: Joint<N>)
    ensures Apart(j.x, j.NOverM()) <==> Strewn(j)
  {
    var t := Node(j.c, j.a, j.m, j.b);
    if Apart(j.x, j.NOverM()) {
      assert Sep(t) && j.m in Nodes(t);
    } else if Strewn(j) {
      assert Sep(t);
    }
  }

  // -------------------------------------------------------- red-black balance

  predicate IsRed<N>(t: Shape<N>) {
    t.Node? && t.color == Red
  }

  function Weight(c: Color): nat {
    if c == Black then 1 else 0
  }

  // Black nodes on the leftmost way down; Rb makes it the count on every way.
  function Bh<N>(t: Shape<N>): nat {
    if t.Leaf? then 0 else Bh(t.left) + Weight(t.color)
  }

  ghost predicate Rb<N>(t: Shape<N>) {
    match t
    case Leaf => true
    case Node(c, l, n, r) =>
      && Rb(l) && Rb(r) && Bh(l) == Bh(r)
      && (c == Red ==> !IsRed(l) && !IsRed(r))
  }

  ghost predicate BlackFrame<N>(x: Path<N>) {
    !x.Top? && x.color == Black
  }

  // A hole that a subtree of black height h fills to give a red-black tree
  // with a black root.
  ghost predicate PathRb<N>(x: Path<N>, h: nat) {
    x.Top? || (
      && Rb(Sibling(x)) && Bh(Sibling(x)) == h && PathRb(x.up, h + Weight(x.color))
      && (x.color == Red ==> !IsRed(Sibling(x)) && BlackFrame(x.up)))
  }

  lemma {:induction false} PlugRb<N>(x: Path<N>, t: Shape<N>)
    requires Rb(t) && PathRb(x, Bh(t))
    requires IsRed(t) ==> BlackFrame(x)
    ensures Rb(Plug(x, t)) && !IsRed(Plug(x, t))
    decreases x
  {
    if !x.Top? {
      PlugRb(x.up, Fill(x, t));
    }
  }

  lemma {:induction false} UnplugRb<N>(x: Path<N>, t: Shape<N>)
    requires Rb(Plug(x, t)) && !IsRed(Plug(x, t))
    ensures Rb(t) && PathRb(x, Bh(t)) && (IsRed(t) ==> BlackFrame(x))
    decreases x
  {
    if !x.Top? {
      UnplugRb(x.up, Fill(x, t));
    }
  }

  // Which node stands in a frame does not matter for the balance.
  lemma {:induction false} FrameRelabeled<N>(chain: Path<N>, c: Color, l: Shape<N>, z: N, y: N, x: Path<N>, h: nat)
    requires PathRb(Concat(chain, InRight(c, l, z, x)), h)
    ensures PathRb(Concat(chain, InRight(c, l, y, x)), h)
    ensures BlackFrame(Concat(chain, InRight(c, l, z, x))) <==> BlackFrame(Concat(chain, InRight(c, l, y, x)))
    decreases chain
  {
    if !chain.Top? {
      FrameRelabeled(chain.up, c, l, z, y, x, h + Weight(chain.color));
    }
  }

  lemma {:induction false} AllLeftBefore<N>(x: Path<N>)
    requires AllLeft(x)
    ensures Before(x) == []
  {
    if !x.Top? {
      AllLeftBefore(x.up);
    }
  }

  lemma {:induction false} LeftmostIsFirst<N>(x: Path<N>, t: Shape<N>)
    requires AllLeft(x) && t.Node? && t.left.Leaf?
    ensures Inorder(Plug(x, t)) != [] && Inorder(Plug(x, t))[0] == t.node
  {
    InorderOfPlug(x, t);
    AllLeftBefore(x);
  }

  lemma {:induction false} PlugConcat<N>(chain: Path<N>, base: Path<N>, t: Shape<N>)
    ensures Plug(Concat(chain, base), t) == Plug(base, Plug(chain, t))
    decreases chain
  {
    if !chain.Top? {
      PlugConcat(chain.up, base, Fill(chain, t));
    }
  }

  // ------------------------------------------------------ taking a node out

  // The listing with the sequence s at the hole.
  ghost function Around<N>(x: Path<N>, s: seq<N>): seq<N> {
    Before(x) + s + After(x)
  }

  // The node of t, at the end of x, has at most the subtree s below it.
  ghost predicate OnlyChild<N>(t: Shape<N>, s: Shape<N>) {
    t.Node? && ((t.left.Leaf? && s == t.right) || (t.right.Leaf? && s == t.left))
  }

  lemma {:induction false} OuterTakenOut<N>(x: Path<N>, t: Shape<N>, s: Shape<N>)
    requires Rb(Plug(x, t)) && !IsRed(Plug(x, t)) && OnlyChild(t, s)
    ensures if t.color == Black then Short(x, s) else Rb(Plug(x, s)) && !IsRed(Plug(x, s))
  {
    UnplugRb(x, t);
    assert Rb(s) && Bh(s) == Bh(t.left);
    if t.color == Red {
      PlugRb(x, s);
    } else {
      DyeRb(s);
    }
  }

  lemma {:induction false} DyeRb<N>(t: Shape<N>)
    requires Rb(t)
    ensures Rb(Dye(t, Black))
  {}

  lemma {:induction false} OuterListing<N>(x: Path<N>, t: Shape<N>, s: Shape<N>)
    requires OnlyChild(t, s)
    ensures Inorder(Plug(x, s)) == Around(x, Inorder(t.left) + Inorder(t.right))
  {
    InorderOfPlug(x, s);
    assert Inorder(t.left) + Inorder(t.right) == Inorder(s);
  }

  // The node of t has given its place to y, the node of m, the least one on
  // its right, and m has given its place to its right subtree.
  ghost predicate LeastOnRight<N>(t: Shape<N>, chain: Path<N>, m: Shape<N>) {
    t.Node? && AllLeft(chain) && m.Node? && m.left.Leaf? && t.right == Plug(chain, m)
  }

  lemma {:induction false} InnerTakenOut<N>(x: Path<N>, t: Shape<N>, chain: Path<N>, m: Shape<N>)
    requires Rb(Plug(x, t)) && !IsRed(Plug(x, t)) && LeastOnRight(t, chain, m)
    ensures var px := Concat(chain, InRight(t.color, t.left, m.node, x));
      if m.color == Black then Short(px, m.right) else Rb(Plug(px, m.right)) && !IsRed(Plug(px, m.right))
  {
    PlugConcat(chain, InRight(t.color, t.left, t.node, x), m);
    UnplugRb(Concat(chain, InRight(t.color, t.left, t.node, x)), m);
    FrameRelabeled(chain, t.color, t.left, t.node, m.node, x, Bh(m));
    if m.color == Red { PlugRb(Concat(chain, InRight(t.color, t.left, m.node, x)), m.right); }
  }

  lemma {:induction false} RightListing<N>(t: Shape<N>, chain: Path<N>, m: Shape<N>)
    requires LeastOnRight(t, chain, m)
    ensures Inorder(t.right) == [m.node] + Inorder(Plug(chain, m.right))
  {
    AllLeftBefore(chain);
    InorderOfPlug(chain, m);
    InorderOfPlug(chain, m.right);
    Regroup([], [m.node], m.node, Inorder(m.right), After(chain));
    assert Inorder(m) == [m.node] + Inorder(m.right);
  }

  lemma {:induction false} InnerListing<N>(x: Path<N>, t: Shape<N>, chain: Path<N>, m: Shape<N>)
    requires LeastOnRight(t, chain, m)
    ensures Inorder(Plug(Concat(chain, InRight(t.color, t.left, m.node, x)), m.right))
         == Around(x, Inorder(t.left) + Inorder(t.right))
  {
    var s := Node(t.color, t.left, m.node, Plug(chain, m.right));
    PlugConcat(chain, InRight(t.color, t.left, m.node, x), m.right);
    RightListing(t, chain, m);
    InorderOfPlug(x, s);
    assert Inorder(s) == Inorder(t.left) + Inorder(t.right);
  }

  // -------------------------------------------------- the steps of the fixups

  // A red subtree, red-black below its root, in a hole of its black height.
  ghost predicate Rising<N>(x: Path<N>, t: Shape<N>) {
    IsRed(t) && Rb(t) && PathRb(x, Bh(t))
  }

  lemma {:induction false} RedLeafRises<N>(x: Path<N>, z: N)
    requires PathRb(x, 0)
    ensures Rising(x, Node(Red, Leaf, z, Leaf))
  {
    var leaf: Shape<N> := Leaf;
    assert Rb(leaf) && Bh(leaf) == 0 && !IsRed(leaf);
    assert Bh(Node(Red, leaf, z, leaf)) == 0;
  }

  // Insertion, red uncle: parent and uncle turn black, the grandparent red.
  function Recolored<N>(x: Path<N>, t: Shape<N>): Shape<N>
    requires !x.Top? && !x.up.Top? && Sibling(x.up).Node?
  {
    var p := Dye(Fill(x, t), Black);
    var u := Dye(Sibling(x.up), Black);
    Dye(Fill(Across(Across(x.up, p), u), p), Red)
  }

  lemma {:induction false} RecoloredRises<N>(x: Path<N>, t: Shape<N>)
    requires Rising(x, t) && !x.Top? && x.color == Red && IsRed(Sibling(x.up))
    ensures Rising(x.up.up, Recolored(x, t))
    ensures Inorder(Plug(x.up.up, Recolored(x, t))) == Inorder(Plug(x, t))
  {
    var s, p, u := Sibling(x), Dye(Fill(x, t), Black), Sibling(x.up);
    assert PathRb(x.up, Bh(t)) && Rb(s) && Bh(s) == Bh(t);
    assert Rb(Dye(u, Black)) && Bh(p) == Bh(t) + 1;
    u := Dye(u, Black);
    assert Inorder(p) == Inorder(Fill(x, t)) && Inorder(u) == Inorder(Sibling(x.up));
    SameListing(x.up.up, Recolored(x, t), Fill(x.up, Fill(x, t)));
  }

  // Insertion, black uncle: an inner grandchild first moves out.
  function Inner<N>(x: Path<N>, t: Shape<N>): Joint<N>
    requires !x.Top? && t.Node?
  {
    if x.InRight? then Joint(x.up, x.color, x.left, x.node, t.color, t.left, t.node, t.right)
    else Joint(x.up, t.color, t.left, t.node, x.color, t.right, x.node, x.right)
  }

  function MovedOut<N>(x: Path<N>, t: Shape<N>): (Path<N>, Shape<N>)
    requires !x.Top? && t.Node?
  {
    if x.InRight? then (InLeft(t.color, t.node, t.right, x.up), Node(x.color, x.left, x.node, t.left))
    else (InRight(t.color, t.left, t.node, x.up), Node(x.color, t.right, x.node, x.right))
  }

  lemma {:induction false} MovedOutRises<N>(x: Path<N>, t: Shape<N>)
    requires Rising(x, t) && !x.Top? && x.color == Red
    ensures var (y, s) := MovedOut(x, t);
      && Rising(y, s) && y.color == Red && y.up == x.up
      && Inorder(Plug(y, s)) == Inorder(Plug(x, t))
  {
    JointListing(Inner(x, t));
  }

  // Then the parent turns over the grandparent, which has become red.
  function Outer<N>(x: Path<N>, t: Shape<N>): Joint<N>
    requires !x.Top? && !x.up.Top?
  {
    if x.InLeft? then Joint(x.up.up, Black, t, x.node, Red, x.right, x.up.node, Sibling(x.up))
    else Joint(x.up.up, Red, Sibling(x.up), x.up.node, Black, x.left, x.node, t)
  }

  function Turned<N>(x: Path<N>): Path<N>
    requires !x.Top? && !x.up.Top?
  {
    if x.InLeft? then InLeft(Black, x.node, Node(Red, x.right, x.up.node, Sibling(x.up)), x.up.up)
    else InRight(Black, Node(Red, Sibling(x.up), x.up.node, x.left), x.node, x.up.up)
  }

  lemma {:induction false} TurnedRises<N>(x: Path<N>, t: Shape<N>)
    requires Rising(x, t) && !x.Top? && x.color == Red && !IsRed(Sibling(x.up))
    ensures Rising(Turned(x), t)
  {
    var s, u := Sibling(x), Sibling(x.up);
    assert PathRb(x.up, Bh(t)) && Rb(s) && Bh(s) == Bh(t) && !IsRed(s);
    assert Rb(Sibling(Turned(x))) && Bh(Sibling(Turned(x))) == Bh(t);
  }

  lemma {:induction false} TurnedListing<N>(x: Path<N>, t: Shape<N>)
    requires Rising(x, t) && !x.Top? && x.color == Red && !IsRed(Sibling(x.up))
    requires x.InLeft? <==> x.up.InLeft?
    ensures Depth(Turned(x)) < Depth(x)
    ensures Inorder(Plug(Turned(x), t)) == Inorder(Plug(x, t))
  {
    var j := Outer(x, t);
    var before, after := Fill(x.up, Fill(x, t)), Fill(Turned(x), t);
    JointListing(j);
    assert after == if x.InLeft? then j.MOverN() else j.NOverM();
    assert Inorder(before) == Inorder(after) by {
      assert Inorder(before) == if x.InLeft? then Inorder(j.NOverM()) else Inorder(j.MOverN());
    }
    SameListing(x.up.up, before, after);
  }

  // Deletion: t is one black node short. It is red-black once its root is
  // black, and painting a red root black makes up for the missing node.
  ghost predicate Short<N>(x: Path<N>, t: Shape<N>) {
    Rb(Dye(t, Black)) && PathRb(x, Bh(t) + 1)
  }

  lemma {:induction false} ShortMadeUp<N>(x: Path<N>, t: Shape<N>)
    requires Short(x, t) && (x.Top? || IsRed(t))
    ensures Rb(Plug(x, Dye(t, Black))) && !IsRed(Plug(x, Dye(t, Black)))
    ensures Inorder(Plug(x, Dye(t, Black))) == Inorder(Plug(x, t))
  {
    PlugRb(x, Dye(t, Black));
    SameListing(x, Dye(t, Black), t);
  }

  lemma {:induction false} ShortHasSibling<N>(x: Path<N>, t: Shape<N>)
    requires Short(x, t) && !x.Top?
    ensures Sibling(x).Node?
  {}

  // Red sibling: it turns over the parent, which becomes red.
  function SiblingUp<N>(x: Path<N>, t: Shape<N>): Joint<N>
    requires !x.Top? && Sibling(x).Node?
  {
    var w := Sibling(x);
    if x.InLeft? then Joint(x.up, Red, t, x.node, Black, w.left, w.node, w.right)
    else Joint(x.up, Black, w.left, w.node, Red, w.right, x.node, t)
  }

  function UnderSibling<N>(x: Path<N>): Path<N>
    requires !x.Top? && Sibling(x).Node?
  {
    var w := Sibling(x);
    if x.InLeft? then InLeft(Red, x.node, w.left, InLeft(Black, w.node, w.right, x.up))
    else InRight(Red, w.right, x.node, InRight(Black, w.left, w.node, x.up))
  }

  lemma {:induction false} UnderSiblingShort<N>(x: Path<N>, t: Shape<N>)
    requires Short(x, t) && !x.Top? && IsRed(Sibling(x))
    ensures Short(UnderSibling(x), t) && !IsRed(Sibling(UnderSibling(x)))
    ensures Depth(UnderSibling(x)) == Depth(x) + 1 && UnderSibling(x).color == Red
    ensures Inorder(Plug(UnderSibling(x), t)) == Inorder(Plug(x, t))
  {
    var j, w := SiblingUp(x, t), Sibling(x);
    assert Rb(w.left) && Rb(w.right) && Bh(w.left) == Bh(w.right) == Bh(t) + 1;
    assert PathRb(UnderSibling(x).up, Bh(t) + 1);
    assert Plug(UnderSibling(x), t) == Plug(x.up, if x.InLeft? then j.NOverM() else j.MOverN());
    JointListing(j);
    SameListing(x.up, Fill(x, t), if x.InLeft? then j.MOverN() else j.NOverM());
  }

  // Black sibling with black children: it turns red, and the parent is short.
  lemma {:induction false} SiblingReddened<N>(x: Path<N>, t: Shape<N>)
    requires Short(x, t) && !x.Top? && !IsRed(t) && Sibling(x).Node? && !IsRed(Sibling(x))
    requires !IsRed(Sibling(x).left) && !IsRed(Sibling(x).right)
    ensures var t' := Fill(WithSibling(x, Dye(Sibling(x), Red)), t);
      Short(x.up, t') && Inorder(Plug(x.up, t')) == Inorder(Plug(x, t))
  {
    var w := Dye(Sibling(x), Red);
    assert Rb(w) && Bh(w) == Bh(t) && Rb(t);
    SameListing(x.up, Fill(WithSibling(x, w), t), Fill(x, t));
  }

  // Black sibling, only its near child red: that child turns over the sibling.
  function NearUp<N>(x: Path<N>, t: Shape<N>): Joint<N>
    requires !x.Top? && Sibling(x).Node?
    requires if x.InLeft? then Sibling(x).left.Node? else Sibling(x).right.Node?
  {
    var w := Sibling(x);
    if x.InLeft? then Joint(Across(x, t), Black, w.left.left, w.left.node, Red, w.left.right, w.node, w.right)
    else Joint(Across(x, t), Red, w.left, w.node, Black, w.right.left, w.right.node, w.right.right)
  }

  function NearSibling<N>(x: Path<N>, t: Shape<N>): Shape<N>
    requires !x.Top? && Sibling(x).Node?
    requires if x.InLeft? then Sibling(x).left.Node? else Sibling(x).right.Node?
  {
    if x.InLeft? then NearUp(x, t).MOverN() else NearUp(x, t).NOverM()
  }

  lemma {:induction false} NearSiblingShort<N>(x: Path<N>, t: Shape<N>)
    requires Short(x, t) && !x.Top? && Sibling(x).Node? && !IsRed(Sibling(x))
    requires if x.InLeft? then IsRed(Sibling(x).left) && !IsRed(Sibling(x).right)
             else IsRed(Sibling(x).right) && !IsRed(Sibling(x).left)
    ensures var w, y := NearSibling(x, t), WithSibling(x, NearSibling(x, t));
      && Short(y, t) && w.Node? && !IsRed(w) && IsRed(if x.InLeft? then w.right else w.left)
      && Inorder(Plug(y, t)) == Inorder(Plug(x, t))
  {
    var j, w := NearUp(x, t), Sibling(x);
    assert Inorder(NearSibling(x, t)) == Inorder(w) by {
      JointListing(j);
      assert Inorder(w) == if x.InLeft? then Inorder(j.NOverM()) else Inorder(j.MOverN());
    }
    var n := if x.InLeft? then w.left else w.right;
    assert Rb(n) && Rb(n.left) && Rb(n.right) && Bh(n.left) == Bh(n.right) == Bh(w) - 1;
    assert Rb(if x.InLeft? then Node(Red, n.right, w.node, w.right) else Node(Red, w.left, w.node, n.left));
    assert Rb(NearSibling(x, t)) && Bh(NearSibling(x, t)) == Bh(w);
    SameListing(x.up, Fill(WithSibling(x, NearSibling(x, t)), t), Fill(x, t));
  }

  // Black sibling, its far child red: it takes the parent's place and color.
  function FarUp<N>(x: Path<N>, t: Shape<N>): Joint<N>
    requires !x.Top? && Sibling(x).Node?
  {
    var w := Sibling(x);
    if x.InLeft? then Joint(x.up, Black, t, x.node, x.color, w.left, w.node, Dye(w.right, Black))
    else Joint(x.up, x.color, Dye(w.left, Black), w.node, Black, w.right, x.node, t)
  }

  lemma {:induction false} FarUpMakesUp<N>(x: Path<N>, t: Shape<N>)
    requires Short(x, t) && !x.Top? && !IsRed(t) && Sibling(x).Node? && !IsRed(Sibling(x))
    requires IsRed(if x.InLeft? then Sibling(x).right else Sibling(x).left)
    ensures var s := Plug(x.up, if x.InLeft? then FarUp(x, t).NOverM() else FarUp(x, t).MOverN());
      Rb(s) && !IsRed(s) && Inorder(s) == Inorder(Plug(x, t))
  {
    var j, w := FarUp(x, t), Sibling(x);
    var s := if x.InLeft? then j.NOverM() else j.MOverN();
    var far := if x.InLeft? then w.right else w.left;
    assert Rb(t) && Rb(w.left) && Rb(w.right) && Bh(w.left) == Bh(w.right) == Bh(t);
    assert Rb(Dye(far, Black)) && Bh(Dye(far, Black)) == Bh(t) + 1;
    assert Rb(if x.InLeft? then Node(Black, t, x.node, w.left) else Node(Black, w.right, x.node, t));
    assert Rb(s) && Bh(s) == Bh(t) + 1 + Weight(x.color);
    PlugRb(x.up, s);
    JointListing(j);
    assert Inorder(Dye(far, Black)) == Inorder(far);
    assert Inorder(Fill(x, t)) == if x.InLeft? then Inorder(j.MOverN()) else Inorder(j.NOverM());
    SameListing(x.up, Fill(x, t), if x.InLeft? then j.MOverN() else j.NOverM());
  }

  // ------------------------------------------------------------ height bound

  function Size<N>(t: Shape<N>): nat {
    if t.Leaf? then 0 else Size(t.left) + 1 + Size(t.right)
  }

  function Height<N>(t: Shape<N>): nat {
    if t.Leaf? then 0
    else 1 + (if Height(t.left) > Height(t.right) then Height(t.left) else Height(t.right))
  }

  function Pow2(n: nat): nat {
    if n == 0 then 1 else 2 * Pow2(n - 1)
  }

  lemma {:induction false} HeightByBlackHeight<N>(t: Shape<N>)
    requires Rb(t)
    ensures Height(t) <= 2 * Bh(t) + (if IsRed(t) then 1 else 0)
    ensures Pow2(Bh(t)) <= Size(t) + 1
  {
    if t.Node? {
      HeightByBlackHeight(t.left);
      HeightByBlackHeight(t.right);
    }
  }

  lemma {:induction false} Pow2Monotone(a: nat, b: nat)
    requires a <= b
    ensures Pow2(a) <= Pow2(b)
    decreases b - a
  {
    if a < b {
      Pow2Monotone(a, b - 1);
    }
  }

  // Height <= 2 * log2(n + 1), without logarithms: for any k with
  // n + 1 < 2^(k+1), that is k >= floor(log2(n + 1)), Height <= 2 * k.
  lemma {:induction false} HeightIsLogarithmic<N>(t: Shape<N>, k: nat)
    requires Rb(t) && !IsRed(t) && Size(t) + 1 < Pow2(k + 1)
    ensures Height(t) <= 2 * k
  {
    HeightByBlackHeight(t);
    if Bh(t) > k {
      Pow2Monotone(k + 1, Bh(t));
    }
  }

  lemma {:induction false} SizeIsListing<N>(t: Shape<N>)
    ensures Size(t) == |Inorder(t)|
  {
    if t.Node? {
      SizeIsListing(t.left);
      SizeIsListing(t.right);
    }
  }

  lemma {:induction false} DepthBelowHeight<N>(x: Path<N>, t: Shape<N>)
    ensures Depth(x) + Height(t) <= Height(Plug(x, t))
    decreases x
  {
    if !x.Top? { DepthBelowHeight(x.up, Fill(x, t)); }
  }

  // However far down a red-black tree of n nodes one goes, it is at most 2k steps
  // for any k with n + 1 < 2^(k+1): the depth of every place, and of every node
  // counting itself.
  lemma {:induction false} EveryPathIsLogarithmic<N>(x: Path<N>, t: Shape<N>, k: nat)
    requires Rb(Plug(x, t)) && !IsRed(Plug(x, t)) && |Inorder(Plug(x, t))| + 1 < Pow2(k + 1)
    ensures Depth(x) + (if t.Node? then 1 else 0) <= 2 * k
  {
    SizeIsListing(Plug(x, t));
    HeightIsLogarithmic(Plug(x, t), k);
    DepthBelowHeight(x, t);
  }
}
