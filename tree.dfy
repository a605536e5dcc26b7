/** The manager's window tree: the wire shape, its normalised form, and the two queries on it. */
module Tree {
  import opened Types

  /** A node as the manager's `get_tree` reply carries it: regular and floating
      children in two separate lists. */
  datatype I3Tree = I3Tree(
    window: Option<u64>,
    kind: string,
    name: Option<string>,
    nodes: seq<I3Tree>,
    floatingNodes: seq<I3Tree>)

  /** The normalised node: one child sequence. */
  datatype Node = Node(id: Option<u64>, kind: string, name: Option<string>, children: seq<Node>)

  /** A childless node, as flattening yields it. */
  datatype Leaf = Leaf(id: Option<u64>, kind: string, name: Option<string>)

  /** Normalisation: every node keeps its window, type and name, and its
      children are its regular children followed by its floating children,
      each converted in turn. */
  function FromTree(t: I3Tree): (n: Node)
    ensures n.id == t.window && n.kind == t.kind && n.name == t.name
    ensures |n.children| == |t.nodes| + |t.floatingNodes|
    ensures forall i :: 0 <= i < |t.nodes| ==> n.children[i] == FromTree(t.nodes[i])
    ensures forall j :: 0 <= j < |t.floatingNodes| ==>
      n.children[|t.nodes| + j] == FromTree(t.floatingNodes[j])
  {
    var children := t.nodes + t.floatingNodes;
    Node(t.window, t.kind, t.name,
      seq(|children|, i requires 0 <= i < |children| =>
        assert children[i] in t.nodes || children[i] in t.floatingNodes;
        FromTree(children[i])))
  }

  function ToLeaf(n: Node): Leaf {
    Leaf(n.id, n.kind, n.name)
  }

  // ---------------------------------------------------------------------
  // Flattening

  /** The leaves of `n`: itself when it has no children, otherwise the
      leaves of its children in child order. Never empty. */
  function Leaves(n: Node): (r: seq<Leaf>)
    ensures |r| >= 1
    decreases n, 1
  {
    if n.children == [] then [ToLeaf(n)] else LeavesAll(n.children)
  }

  function LeavesAll(ns: seq<Node>): (r: seq<Leaf>)
    ensures |r| >= |ns|
    decreases ns, 0
  {
    if ns == [] then [] else Leaves(ns[0]) + LeavesAll(ns[1..])
  }

  lemma {:induction false} LeavesAllAppend(a: seq<Node>, b: seq<Node>)
    ensures LeavesAll(a + b) == LeavesAll(a) + LeavesAll(b)
  {
    if a == [] {
      assert a + b == b;
    } else {
      assert (a + b)[1..] == a[1..] + b;
      LeavesAllAppend(a[1..], b);
    }
  }

  /** `into_leaves`: a `for` loop appending each child's leaves to a local vector. */
  method IntoLeaves(n: Node) returns (leaves: seq<Leaf>)
    ensures leaves == Leaves(n)
    decreases n
  {
    if |n.children| == 0 {
      return [ToLeaf(n)];
    }
    leaves := [];
    for i := 0 to |n.children|
      invariant leaves == LeavesAll(n.children[..i])
    {
      var more := IntoLeaves(n.children[i]);
      assert n.children[..i + 1] == n.children[..i] + [n.children[i]];
      LeavesAllAppend(n.children[..i], [n.children[i]]);
      assert LeavesAll([n.children[i]]) == Leaves(n.children[i]) by {
        assert [n.children[i]][1..] == [];
      }
      leaves := leaves + more;
    }
    assert n.children[..|n.children|] == n.children;
  }

  // ---------------------------------------------------------------------
  // Document order

  /** Every node of the subtree in depth-first pre-order (document order). */
  function PreOrder(n: Node): (r: seq<Node>)
    ensures |r| >= 1 && r[0] == n
    decreases n, 1
  {
    [n] + PreOrderAll(n.children)
  }

  function PreOrderAll(ns: seq<Node>): seq<Node>
    decreases ns, 0
  {
    if ns == [] then [] else PreOrder(ns[0]) + PreOrderAll(ns[1..])
  }

  /** The childless nodes of a node sequence, as leaves, in sequence order. */
  function Childless(s: seq<Node>): (r: seq<Leaf>)
    ensures |r| <= |s|
  {
    if s == [] then []
    else (if s[0].children == [] then [ToLeaf(s[0])] else []) + Childless(s[1..])
  }

  lemma {:induction false} ChildlessAppend(a: seq<Node>, b: seq<Node>)
    ensures Childless(a + b) == Childless(a) + Childless(b)
  {
    if a == [] {
      assert a + b == b;
    } else {
      assert (a + b)[1..] == a[1..] + b;
      ChildlessAppend(a[1..], b);
    }
  }

  /** Flattening yields exactly the childless nodes of the subtree, in
      document order; so its length is the number of childless nodes. */
  lemma {:induction false} LeavesInDocumentOrder(n: Node)
    ensures Leaves(n) == Childless(PreOrder(n))
    decreases n, 1
  {
    ChildlessAppend([n], PreOrderAll(n.children));
    assert Childless([n]) == if n.children == [] then [ToLeaf(n)] else [] by {
      assert [n][1..] == [];
    }
    LeavesAllInDocumentOrder(n.children);
  }

  lemma {:induction false} LeavesAllInDocumentOrder(ns: seq<Node>)
    ensures LeavesAll(ns) == Childless(PreOrderAll(ns))
    decreases ns, 0
  {
    if ns != [] {
      ChildlessAppend(PreOrder(ns[0]), PreOrderAll(ns[1..]));
      LeavesInDocumentOrder(ns[0]);
      LeavesAllInDocumentOrder(ns[1..]);
    }
  }

  // ---------------------------------------------------------------------
  // Flattening the wire shape directly

  /** The leaves of the wire-shaped tree, reading regular children before
      floating children at every level. */
  function RawLeaves(t: I3Tree): seq<Leaf>
    decreases t, 1
  {
    if t.nodes == [] && t.floatingNodes == [] then [Leaf(t.window, t.kind, t.name)]
    else RawLeavesAll(t.nodes) + RawLeavesAll(t.floatingNodes)
  }

  function RawLeavesAll(ts: seq<I3Tree>): seq<Leaf>
    decreases ts, 0
  {
    if ts == [] then [] else RawLeaves(ts[0]) + RawLeavesAll(ts[1..])
  }

  /** Normalising and then flattening is the same as flattening the wire
      shape with regular children first. */
  lemma {:induction false} LeavesFromTree(t: I3Tree)
    ensures Leaves(FromTree(t)) == RawLeaves(t)
    decreases t, 1
  {
    var n := FromTree(t);
    var k := |t.nodes|;
    if n.children != [] {
      assert n.children == n.children[..k] + n.children[k..];
      LeavesAllAppend(n.children[..k], n.children[k..]);
      LeavesAllFromTree(t.nodes, n.children[..k]);
      LeavesAllFromTree(t.floatingNodes, n.children[k..]);
    }
  }

  lemma {:induction false} LeavesAllFromTree(ts: seq<I3Tree>, ns: seq<Node>)
    requires |ns| == |ts| && forall i :: 0 <= i < |ts| ==> ns[i] == FromTree(ts[i])
    ensures LeavesAll(ns) == RawLeavesAll(ts)
    decreases ts, 0
  {
    if ts != [] {
      LeavesFromTree(ts[0]);
      LeavesAllFromTree(ts[1..], ns[1..]);
    }
  }

  // ---------------------------------------------------------------------
  // Search by name

  /** `find_name`: the node itself when its name is `target`, otherwise the
      first match among its children searched in order. */
  function FindName(n: Node, target: string): (r: Option<Node>)
    ensures r.Some? ==> r.value.name == Some(target)
    decreases n, 1
  {
    if n.name == Some(target) then Some(n) else FindAmong(n.children, target)
  }

  /** `find_map` over the children: the first child search that succeeds. */
  function FindAmong(ns: seq<Node>, target: string): (r: Option<Node>)
    ensures r.Some? ==> r.value.name == Some(target)
    decreases ns, 0
  {
    if ns == [] then None
    else match FindName(ns[0], target)
      case Some(m) => Some(m)
      case None => FindAmong(ns[1..], target)
  }

  /** `s[k]` is named `target` and no earlier node of `s` is. */
  predicate FirstNamedAt(s: seq<Node>, target: string, k: nat) {
    k < |s| && s[k].name == Some(target) && forall j :: 0 <= j < k ==> s[j].name != Some(target)
  }

  /** The first node of a sequence named `target`, characterised by position. */
  function FirstNamed(s: seq<Node>, target: string): (r: Option<Node>)
    ensures r.None? <==> forall k :: 0 <= k < |s| ==> s[k].name != Some(target)
    ensures r.Some? ==> exists k: nat :: FirstNamedAt(s, target, k) && s[k] == r.value
  {
    if s == [] then None
    else if s[0].name == Some(target) then
      assert FirstNamedAt(s, target, 0);
      Some(s[0])
    else
      var r := FirstNamed(s[1..], target);
      assert r.Some? ==> exists k: nat :: FirstNamedAt(s, target, k) && s[k] == r.value by {
        if r.Some? {
          var k: nat :| FirstNamedAt(s[1..], target, k) && s[1..][k] == r.value;
          forall j | 0 <= j < k + 1 ensures s[j].name != Some(target) {
            if j > 0 { assert s[j] == s[1..][j - 1]; }
          }
          assert s[k + 1] == s[1..][k];
          assert FirstNamedAt(s, target, k + 1);
        }
      }
      r
  }

  lemma {:induction false} FirstNamedAppend(a: seq<Node>, b: seq<Node>, target: string)
    ensures FirstNamed(a + b, target) ==
      if FirstNamed(a, target).Some? then FirstNamed(a, target) else FirstNamed(b, target)
  {
    if a == [] {
      assert a + b == b;
    } else {
      assert (a + b)[0] == a[0];
      assert (a + b)[1..] == a[1..] + b;
      FirstNamedAppend(a[1..], b, target);
    }
  }

  /** The search returns the first node in document order whose name is
      `target`, and finds nothing exactly when no node of the subtree has
      that name. */
  lemma {:induction false} FindNameIsFirstInDocumentOrder(n: Node, target: string)
    ensures FindName(n, target) == FirstNamed(PreOrder(n), target)
    decreases n, 1
  {
    FirstNamedAppend([n], PreOrderAll(n.children), target);
    assert FirstNamed([n], target) == if n.name == Some(target) then Some(n) else None by {
      assert [n][1..] == [];
    }
    FindAmongIsFirstInDocumentOrder(n.children, target);
  }

  lemma {:induction false} FindAmongIsFirstInDocumentOrder(ns: seq<Node>, target: string)
    ensures FindAmong(ns, target) == FirstNamed(PreOrderAll(ns), target)
    decreases ns, 0
  {
    if ns != [] {
      FirstNamedAppend(PreOrder(ns[0]), PreOrderAll(ns[1..]), target);
      FindNameIsFirstInDocumentOrder(ns[0], target);
      FindAmongIsFirstInDocumentOrder(ns[1..], target);
    }
  }
}
