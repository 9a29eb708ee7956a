/** The schema tree that commands are generated from, and the anchors of its nodes. */
module Schema {
  import opened CStrings

  datatype NodeKind = Container | List | Leaf | LeafList

  /** A data node of a schema without choices. */
  datatype Node = Node(name: string, kind: NodeKind, config: bool, key: bool, children: seq<Node>)

  /** A node is known by the child numbers that lead to it from the root; the root is `[]`. */
  type Path = seq<nat>

  predicate IsNode(root: Node, p: Path)
    decreases |p|
  {
    p == [] || (p[0] < |root.children| && IsNode(root.children[p[0]], p[1..]))
  }

  function NodeAt(root: Node, p: Path): Node
    requires IsNode(root, p)
    decreases |p|
  {
    if p == [] then root else NodeAt(root.children[p[0]], p[1..])
  }

  function Parent(p: Path): Path
    requires p != []
  {
    p[..|p| - 1]
  }

  lemma {:induction false} ParentIsNode(root: Node, p: Path)
    requires IsNode(root, p) && p != []
    ensures IsNode(root, Parent(p))
    ensures p[|p| - 1] < |NodeAt(root, Parent(p)).children|
    ensures NodeAt(root, p) == NodeAt(root, Parent(p)).children[p[|p| - 1]]
    decreases |p|
  {
    if |p| > 1 {
      ParentIsNode(root.children[p[0]], p[1..]);
      assert Parent(p)[1..] == Parent(p[1..]);
    } else {
      assert p[1..] == [] && Parent(p) == [];
    }
  }

  /** Leaves have no children, and what is below a node without configuration has none either. */
  ghost predicate WellFormed(n: Node) {
    && (n.children != [] ==> n.kind == Container || n.kind == List)
    && (forall c <- n.children :: WellFormed(c) && (c.config ==> n.config))
  }

  lemma {:induction false} WellFormedAt(root: Node, p: Path)
    requires WellFormed(root) && IsNode(root, p)
    ensures WellFormed(NodeAt(root, p))
    decreases |p|
  {
    if p != [] {
      WellFormedAt(root.children[p[0]], p[1..]);
    }
  }

  /** What the parent of a node must be like. */
  lemma ParentOfNode(root: Node, p: Path)
    requires WellFormed(root) && IsNode(root, p) && p != []
    ensures IsNode(root, Parent(p))
    ensures var parent := NodeAt(root, Parent(p));
            && (parent.kind == Container || parent.kind == List)
            && (NodeAt(root, p).config ==> parent.config)
  {
    ParentIsNode(root, p);
    WellFormedAt(root, Parent(p));
    var parent := NodeAt(root, Parent(p));
    assert NodeAt(root, p) in parent.children;
  }

  // ----- Anchors

  predicate IsAnchor(root: Node, p: Path)
    requires IsNode(root, p)
  {
    p == [] || NodeAt(root, p).kind == List
  }

  /** The nearest proper ancestor that is a list, or else the root. */
  function Anchor(root: Node, p: Path): (a: Path)
    requires IsNode(root, p) && p != []
    ensures IsNode(root, a) && IsAnchor(root, a) && |a| < |p| && a == p[..|a|]
    decreases |p|
  {
    ParentIsNode(root, p);
    var q := Parent(p);
    if IsAnchor(root, q) then q
    else
      var a := Anchor(root, q);
      assert p[..|a|] == q[..|a|];
      a
  }

  lemma {:induction false} PrefixIsNode(root: Node, p: Path, n: nat)
    requires IsNode(root, p) && n <= |p|
    ensures IsNode(root, p[..n])
    decreases |p| - n
  {
    if n < |p| {
      ParentIsNode(root, p);
      assert Parent(p)[..n] == p[..n];
      PrefixIsNode(root, Parent(p), n);
    } else {
      assert p[..n] == p;
    }
  }

  /** Nothing strictly between a node and its anchor is an anchor. */
  lemma {:induction false} AnchorIsNearest(root: Node, p: Path, n: nat)
    requires IsNode(root, p) && p != [] && |Anchor(root, p)| < n < |p|
    ensures IsNode(root, p[..n]) && !IsAnchor(root, p[..n])
    decreases |p|
  {
    PrefixIsNode(root, p, n);
    ParentIsNode(root, p);
    var q := Parent(p);
    assert q[..n] == p[..n];
    if n < |p| - 1 {
      AnchorIsNearest(root, q, n);
    } else {
      assert p[..n] == q;
    }
  }

  // ----- The depth-first walk

  /** The nodes below `n`, itself included, in the order of `LYSC_TREE_DFS`, when `n` stands at `at`. */
  function Preorder(n: Node, at: Path): (ps: seq<Path>)
    ensures |ps| > 0 && ps[0] == at
    decreases n, |n.children| + 1
  {
    [at] + PreorderFrom(n, 0, at)
  }

  function PreorderFrom(n: Node, i: nat, at: Path): seq<Path>
    requires i <= |n.children|
    decreases n, |n.children| - i
  {
    if i == |n.children| then []
    else Preorder(n.children[i], at + [i]) + PreorderFrom(n, i + 1, at)
  }

  /** The paths of the walk from child `i` on. */
  predicate Under(n: Node, i: nat, at: Path, p: Path) {
    |at| < |p| && at == p[..|at|] && p[|at|] >= i && IsNode(n, p[|at|..])
  }

  predicate AtOrUnder(n: Node, at: Path, p: Path) {
    |at| <= |p| && at == p[..|at|] && IsNode(n, p[|at|..])
  }

  lemma UnderSplits(n: Node, i: nat, at: Path, p: Path)
    requires i < |n.children|
    ensures Under(n, i, at, p) <==> AtOrUnder(n.children[i], at + [i], p) || Under(n, i + 1, at, p)
    ensures !(AtOrUnder(n.children[i], at + [i], p) && Under(n, i + 1, at, p))
  {
    if |at| < |p| && at == p[..|at|] {
      assert p[..|at| + 1] == at + [p[|at|]];
      assert p[|at|..][1..] == p[|at| + 1..];
    }
    if AtOrUnder(n.children[i], at + [i], p) {
      assert p[..|at| + 1][..|at|] == p[..|at|] == at && p[..|at| + 1][|at|] == i;
    }
  }

  /** The walk visits exactly the nodes. */
  lemma {:induction false} PreorderExact(n: Node, at: Path)
    ensures forall p :: p in Preorder(n, at) <==> AtOrUnder(n, at, p)
    decreases n, |n.children| + 1
  {
    hide IsNode;
    PreorderFromExact(n, 0, at);
    forall p
      ensures AtOrUnder(n, at, p) <==> p == at || Under(n, 0, at, p)
    {
      RootOrUnder(n, at, p);
    }
  }

  lemma RootOrUnder(n: Node, at: Path, p: Path)
    ensures AtOrUnder(n, at, p) <==> p == at || Under(n, 0, at, p)
  {
    if |p| == |at| && at == p[..|at|] {
      assert p == at;
    }
  }

  lemma {:induction false} PreorderFromExact(n: Node, i: nat, at: Path)
    requires i <= |n.children|
    ensures forall p :: p in PreorderFrom(n, i, at) <==> Under(n, i, at, p)
    decreases n, |n.children| - i
  {
    hide IsNode;
    if i < |n.children| {
      PreorderExact(n.children[i], at + [i]);
      PreorderFromExact(n, i + 1, at);
      forall p
        ensures Under(n, i, at, p) <==> AtOrUnder(n.children[i], at + [i], p) || Under(n, i + 1, at, p)
      {
        UnderSplits(n, i, at, p);
      }
    } else {
      forall p
        ensures !Under(n, i, at, p)
      {
        NoneUnder(n, i, at, p);
      }
    }
  }

  lemma NoneUnder(n: Node, i: nat, at: Path, p: Path)
    requires i >= |n.children|
    ensures !Under(n, i, at, p)
  {
  }

  /** In `ps` no path occurs twice and every path comes after its prefixes of at least `least`
      elements. */
  ghost predicate Ordered(ps: seq<Path>, least: nat) {
    && (forall j, k | 0 <= j < k < |ps| :: ps[j] != ps[k])
    && (forall k, m | 0 <= k < |ps| && least <= m < |ps[k]| :: ps[k][..m] in ps[..k])
  }

  lemma OrderedJoin(a: seq<Path>, b: seq<Path>, least: nat)
    requires Ordered(a, least) && Ordered(b, least)
    requires forall p <- a :: p !in b
    ensures Ordered(a + b, least)
  {
    var c := a + b;
    assert forall j :: 0 <= j < |a| ==> c[j] == a[j] && a[j] in a;
    assert forall k :: |a| <= k < |c| ==> c[k] == b[k - |a|] && b[k - |a|] in b;
    forall k, m | 0 <= k < |c| && least <= m < |c[k]|
      ensures c[k][..m] in c[..k]
    {
      if k < |a| {
        assert c[..k] == a[..k];
      } else {
        assert c[..k] == a + b[..k - |a|];
      }
    }
  }

  /** In the walk a node comes after its ancestors, and just once. */
  lemma {:induction false} PreorderOrdered(n: Node, at: Path)
    ensures Ordered(Preorder(n, at), |at|)
    decreases n, |n.children| + 1
  {
    hide IsNode;
    PreorderFromOrdered(n, 0, at);
    PreorderFromExact(n, 0, at);
    var ps, below := Preorder(n, at), PreorderFrom(n, 0, at);
    forall k, m | 0 <= k < |ps| && |at| <= m < |ps[k]|
      ensures ps[k][..m] in ps[..k]
    {
      assert k > 0 && ps[k] == below[k - 1] && below[k - 1] in below;
      assert ps[..k] == [at] + below[..k - 1];
      if m == |at| {
        assert ps[k][..m] == at;
      }
    }
    assert at !in below;
  }

  lemma {:induction false} PreorderFromOrdered(n: Node, i: nat, at: Path)
    requires i <= |n.children|
    ensures Ordered(PreorderFrom(n, i, at), |at| + 1)
    decreases n, |n.children| - i
  {
    hide IsNode;
    if i < |n.children| {
      PreorderOrdered(n.children[i], at + [i]);
      PreorderFromOrdered(n, i + 1, at);
      PreorderExact(n.children[i], at + [i]);
      PreorderFromExact(n, i + 1, at);
      var a, b := Preorder(n.children[i], at + [i]), PreorderFrom(n, i + 1, at);
      forall p <- a
        ensures p !in b
      {
        UnderSplits(n, i, at, p);
      }
      OrderedJoin(a, b, |at| + 1);
    }
  }
}
