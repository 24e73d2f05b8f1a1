/**
 * The part of the markdown syntax tree (mdast, as produced by remark-parse)
 * that the link checker looks at, and the depth-first pre-order traversal
 * that `unist-util-visit` performs.
 */
module Mdast {

  /**
   * A syntax-tree node. Every node type the checker does not distinguish
   * (lists, emphasis, code, images, front-matter, ...) is an `Other` node;
   * leaf nodes other than text are `Other` nodes without children.
   */
  datatype Node =
    | Root(children: seq<Node>)
    | Heading(depth: nat, children: seq<Node>)
    | Paragraph(children: seq<Node>)
    | Link(url: string, children: seq<Node>)
    | Text(value: string)
    | Other(children: seq<Node>)

  /** The children of a node; a text node has none. */
  function Children(n: Node): seq<Node> {
    if n.Text? then [] else n.children
  }

  /** Every node of the tree rooted at `n`, each parent before its children, children left to right. */
  function Preorder(n: Node): (r: seq<Node>)
    ensures |r| >= 1 && r[0] == n
    decreases n, 1
  {
    if n.Text? then [n] else [n] + PreorderAll(n.children)
  }

  /** The pre-order traversals of a sequence of sibling trees, one after another. */
  function PreorderAll(ns: seq<Node>): (r: seq<Node>)
    ensures forall i :: 0 <= i < |ns| ==> ns[i] in r
    decreases ns, 0
  {
    if |ns| == 0 then []
    else Preorder(ns[0]) + PreorderAll(ns[1..])
  }

  /** A visit reaches every node below a child, however deeply nested. */
  lemma {:induction false} VisitReachesDescendants(n: Node, i: nat, m: Node)
    requires i < |Children(n)| && m in Preorder(Children(n)[i])
    ensures m in Preorder(n)
  {
    InPreorderAll(Children(n), i, m);
  }

  lemma {:induction false} InPreorderAll(ns: seq<Node>, i: nat, m: Node)
    requires i < |ns| && m in Preorder(ns[i])
    ensures m in PreorderAll(ns)
    decreases i
  {
    if i > 0 {
      InPreorderAll(ns[1..], i - 1, m);
    }
  }

  /**
   * A visit reaches nothing but the node itself and the nodes below its
   * children: together with `VisitReachesDescendants`, the traversal holds
   * exactly the node and its descendants.
   */
  lemma PreorderSound(n: Node, m: Node)
    requires m in Preorder(n)
    ensures m == n || exists i :: 0 <= i < |Children(n)| && m in Preorder(Children(n)[i])
  {
    if m != n {
      assert !n.Text?;
      assert Preorder(n) == [n] + PreorderAll(n.children);
      assert Children(n) == n.children;
      PreorderAllSound(n.children, m);
    }
  }

  /** Whatever the traversal of siblings reaches lies in the traversal of one of them. */
  lemma {:induction false} PreorderAllSound(ns: seq<Node>, m: Node)
    requires m in PreorderAll(ns)
    ensures exists i :: 0 <= i < |ns| && m in Preorder(ns[i])
    decreases |ns|
  {
    if m !in Preorder(ns[0]) {
      PreorderAllSound(ns[1..], m);
      var i :| 0 <= i < |ns[1..]| && m in Preorder(ns[1..][i]);
      assert ns[1..][i] == ns[i + 1];
    } else {
      assert m in Preorder(ns[0]);
    }
  }

  /** Traversing siblings `a + b` visits all of `a`'s trees, then all of `b`'s. */
  lemma {:induction false} PreorderAllConcat(a: seq<Node>, b: seq<Node>)
    ensures PreorderAll(a + b) == PreorderAll(a) + PreorderAll(b)
    decreases |a|
  {
    if |a| > 0 {
      assert (a + b)[1..] == a[1..] + b;
      PreorderAllConcat(a[1..], b);
    } else {
      assert a + b == b;
    }
  }

  /** A single child is traversed by its own pre-order. */
  lemma PreorderAllSingle(n: Node)
    ensures PreorderAll([n]) == Preorder(n)
  {
    assert [n][1..] == [];
  }
}
