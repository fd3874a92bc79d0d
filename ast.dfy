// The node header every syntax-tree node carries (include/ast_nodes.h) and
// the generic list node of include/ast_nodes_p4.h.
//
// C++ subclassing is expressed by composition: each node class owns an
// `AstNode` header object, and parent links point at headers.

module AstNodes {
  import opened Strings

  /** The fields every node inherits: validity, type tag, parent link, soft-delete flag. */
  class AstNode {
    var valid: bool
    var nodeType: string
    var parent: AstNode?
    var removed: bool

    constructor ()
      ensures valid && nodeType == "base" && parent == null && !removed
    {
      valid := true;
      nodeType := "base";
      parent := null;
      removed := false;
    }
  }

  /** The node that stands for an absent optional part; it is the one invalid node. */
  class EmptyNode {
    const node: AstNode

    constructor ()
      ensures fresh(node)
      ensures !node.valid && node.nodeType == "EmptyNode" && node.parent == null && !node.removed
    {
      var n := new AstNode();
      n.valid := false;
      n.nodeType := "EmptyNode";
      node := n;
    }

    function ToString(): (r: string)
      ensures |r| == 0
    {
      ""
    }
  }

  /** A P4 identifier. */
  class NameNode {
    const node: AstNode
    var word: string

    constructor (word: string)
      ensures fresh(node) && this.word == word
      ensures node.valid && node.nodeType == "NameNode" && node.parent == null && !node.removed
    {
      var n := new AstNode();
      n.nodeType := "NameNode";
      node := n;
      this.word := word;
    }

    /** A distinct node holding an equal word; the original is not changed. */
    method DeepCopy() returns (c: NameNode)
      ensures fresh(c) && fresh(c.node) && c != this && c.node != node
      ensures c.word == word
      ensures c.node.valid && c.node.parent == null && !c.node.removed
    {
      c := new NameNode(word);
    }
  }

  /**
   * ListNode<T>: an owned vector of children. Appending a child makes the
   * list node its parent. (The C++ constructor leaves the type tag at "base".)
   */
  class ListNode {
    const node: AstNode
    var list: seq<AstNode>

    constructor ()
      ensures fresh(node) && list == []
      ensures node.valid && node.nodeType == "base" && node.parent == null && !node.removed
    {
      node := new AstNode();
      list := [];
    }

    method PushBack(x: AstNode)
      modifies this, x
      ensures list == old(list) + [x]
      ensures x.parent == node
      ensures x.valid == old(x.valid) && x.nodeType == old(x.nodeType) && x.removed == old(x.removed)
    {
      list := list + [x];
      x.parent := node;
    }
  }

  /**
   * One top-level declaration of the program, chained to the declarations
   * before it through `next`. `Chain` lists the expressions of the chain,
   * the oldest first; `Repr` is the set of chain nodes.
   */
  class InputNode {
    const node: AstNode
    const next: InputNode?
    const expression: AstNode
    ghost const Chain: seq<AstNode>
    ghost const Repr: set<InputNode>

    ghost predicate Valid()
      reads Repr
      decreases Repr
    {
      this in Repr &&
      if next == null then Chain == [expression] && Repr == {this}
      else
        next in Repr && next.Repr <= Repr && this !in next.Repr &&
        Repr == next.Repr + {this} &&
        next.Valid() && Chain == next.Chain + [expression]
    }

    constructor (next: InputNode?, expression: AstNode)
      requires next != null ==> next.Valid()
      modifies expression
      ensures Valid() && fresh(node)
      ensures this.next == next && this.expression == expression
      ensures Chain == (if next == null then [] else next.Chain) + [expression]
      ensures expression.parent == node
    {
      var n := new AstNode();
      n.nodeType := "InputNode";
      node := n;
      this.next := next;
      this.expression := expression;
      Chain := (if next == null then [] else next.Chain) + [expression];
      Repr := (if next == null then {} else next.Repr) + {this};
      new;
      expression.parent := node;
    }

    /**
     * The rendering of the chain: the earlier declarations, a newline, then
     * this expression. `render` stands for each expression's own toString.
     */
    function ToString(render: AstNode -> string): string
      reads Repr
      requires Valid()
      decreases Repr
    {
      if next == null then render(expression)
      else next.ToString(render) + "\n" + render(expression)
    }
  }

  function Renderings(xs: seq<AstNode>, render: AstNode -> string): (r: seq<string>)
    ensures |r| == |xs| && forall i :: 0 <= i < |xs| ==> r[i] == render(xs[i])
  {
    seq(|xs|, i requires 0 <= i < |xs| => render(xs[i]))
  }

  /** A chain renders as its expressions, oldest first, one per line. */
  lemma {:induction false} InputToStringIsJoin(n: InputNode, render: AstNode -> string)
    requires n.Valid()
    ensures n.ToString(render) == Join(Renderings(n.Chain, render), "\n")
    decreases n.Repr
  {
    if n.next != null {
      InputToStringIsJoin(n.next, render);
      var rs := Renderings(n.Chain, render);
      assert rs[..|rs| - 1] == Renderings(n.next.Chain, render);
    }
  }
}
