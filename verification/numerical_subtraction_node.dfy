/**
 * The dataflow control-flow-graph node for a numerical subtraction
 * `left - right`. A node is immutable: its tree and its two operands are set
 * when it is built. The operands are nodes of any other kind, so their type is
 * a parameter `N`, and what the node needs from them (their `equals` and their
 * `toString`, and `HashCodeUtils.hash` of the operand pair) is passed in as
 * functions.
 */
module CfgNodes {
  import opened Wrappers

  /** A 32-bit Java int, the type of `hashCode`. */
  newtype Int32 = x: int | -0x8000_0000 <= x < 0x8000_0000

  /** The kind of a javac tree: MINUS, or any other kind by its name. */
  datatype TreeKind = Minus | OtherKind(name: string)

  /** A javac tree: its kind, and an identity that stands for the tree object. */
  datatype Tree = Tree(kind: TreeKind, id: nat)

  /** The error a failed Java `assert` raises. */
  datatype AssertionError = AssertionError(kind: TreeKind)

  /** The argument of `equals(Object)`: null, a subtraction node, or an object that is not a NumericalSubtractionNode. */
  datatype JavaObject<N> = Null | Subtraction(node: NumericalSubtractionNode<N>) | OtherObject(id: nat)

  /** A node for `left - right`, built from the javac tree `tree`. */
  datatype NumericalSubtractionNode<N> = NumericalSubtractionNode(tree: Tree, left: N, right: N)
  {
    /** Only a MINUS tree gives rise to a subtraction node. */
    predicate Valid() {
      tree.kind == Minus
    }

    function GetLeftOperand(): N {
      left
    }

    function GetRightOperand(): N {
      right
    }

    function GetTree(): Tree {
      tree
    }

    /** `getOperands`: a fresh list of the left operand, then the right one. */
    function GetOperands(): (operands: seq<N>)
      ensures |operands| == 2
      ensures operands[0] == GetLeftOperand() && operands[1] == GetRightOperand()
    {
      [left, right]
    }

    /**
     * `equals(Object)`: false for null and for objects that are not
     * NumericalSubtractionNodes; for another subtraction node, both operands
     * are equal under `operandEquals`, the operands' own `equals`.
     */
    function Equals(obj: JavaObject<N>, operandEquals: (N, N) -> bool): bool {
      match obj
      case Subtraction(other) =>
        operandEquals(GetLeftOperand(), other.GetLeftOperand())
        && operandEquals(GetRightOperand(), other.GetRightOperand())
      case _ => false
    }

    /** `hashCode`: `HashCodeUtils.hash` of the two operands, given as `hash`. */
    function HashCode(hash: (N, N) -> Int32): Int32 {
      hash(GetLeftOperand(), GetRightOperand())
    }

    /** `toString`: "(" + left + " - " + right + ")", the operands rendered by `show`. */
    function ToString(show: N -> string): (s: string)
      ensures |s| == |show(left)| + |show(right)| + 5
      ensures s[0] == '(' && s[|s| - 1] == ')'
      ensures s[1..1 + |show(left)|] == show(left)
      ensures s[1 + |show(left)|..4 + |show(left)|] == " - "
      ensures s[4 + |show(left)|..|s| - 1] == show(right)
    {
      "(" + show(GetLeftOperand()) + " - " + show(GetRightOperand()) + ")"
    }
  }

  /**
   * The constructor: it asserts that the tree is a MINUS tree and keeps the
   * tree and the operands it is given.
   */
  function Create<N>(tree: Tree, left: N, right: N): (r: Result<NumericalSubtractionNode<N>, AssertionError>)
    ensures r.Success? <==> tree.kind == Minus
    ensures r.Success? ==> r.value.Valid()
    ensures r.Success? ==>
      r.value.GetTree() == tree && r.value.GetLeftOperand() == left && r.value.GetRightOperand() == right
    ensures r.Failure? ==> r.error == AssertionError(tree.kind)
  {
    if tree.kind == Minus then Success(NumericalSubtractionNode(tree, left, right))
    else Failure(AssertionError(tree.kind))
  }

  /** A subtraction node never equals null or an object that is not a NumericalSubtractionNode. */
  lemma EqualsRejectsNonSubtraction<N>(n: NumericalSubtractionNode<N>, obj: JavaObject<N>, operandEquals: (N, N) -> bool)
    requires !obj.Subtraction?
    ensures !n.Equals(obj, operandEquals)
  {
  }

  /**
   * Two subtraction nodes are equal iff their operand lists are equal
   * element by element; their trees play no part.
   */
  lemma EqualsComparesOperands<N>(n: NumericalSubtractionNode<N>, m: NumericalSubtractionNode<N>, t: Tree, operandEquals: (N, N) -> bool)
    ensures n.Equals(Subtraction(m), operandEquals) <==>
      forall i :: 0 <= i < 2 ==> operandEquals(n.GetOperands()[i], m.GetOperands()[i])
    ensures n.Equals(Subtraction(m), operandEquals) == n.Equals(Subtraction(m.(tree := t)), operandEquals)
    ensures n.Equals(Subtraction(m), operandEquals) == n.(tree := t).Equals(Subtraction(m), operandEquals)
  {
    var ns, ms := n.GetOperands(), m.GetOperands();
    if n.Equals(Subtraction(m), operandEquals) {
      forall i | 0 <= i < 2 ensures operandEquals(ns[i], ms[i]) {
        if i == 1 {
          assert ns[i] == n.right && ms[i] == m.right;
        }
      }
    } else {
      assert !operandEquals(ns[0], ms[0]) || !operandEquals(ns[1], ms[1]);
    }
  }

  ghost predicate Reflexive<N(!new)>(eq: (N, N) -> bool) {
    forall a :: eq(a, a)
  }

  ghost predicate Symmetric<N(!new)>(eq: (N, N) -> bool) {
    forall a, b :: eq(a, b) ==> eq(b, a)
  }

  ghost predicate Transitive<N(!new)>(eq: (N, N) -> bool) {
    forall a, b, c :: eq(a, b) && eq(b, c) ==> eq(a, c)
  }

  /** Node equality is an equivalence whenever operand equality is one. */
  lemma EqualsIsEquivalence<N(!new)>(operandEquals: (N, N) -> bool, a: NumericalSubtractionNode<N>, b: NumericalSubtractionNode<N>, c: NumericalSubtractionNode<N>)
    requires Reflexive(operandEquals) && Symmetric(operandEquals) && Transitive(operandEquals)
    ensures a.Equals(Subtraction(a), operandEquals)
    ensures a.Equals(Subtraction(b), operandEquals) ==> b.Equals(Subtraction(a), operandEquals)
    ensures a.Equals(Subtraction(b), operandEquals) && b.Equals(Subtraction(c), operandEquals) ==>
      a.Equals(Subtraction(c), operandEquals)
  {
  }

  /**
   * Equal nodes have equal hash codes, given that `hash` maps pairs of equal
   * operands to the same value (as the operands' own hashCode and equals agree).
   */
  lemma HashCodeConsistentWithEquals<N(!new)>(n: NumericalSubtractionNode<N>, m: NumericalSubtractionNode<N>,
                                              operandEquals: (N, N) -> bool, hash: (N, N) -> Int32)
    requires forall a1, a2, b1, b2 :: operandEquals(a1, a2) && operandEquals(b1, b2) ==> hash(a1, b1) == hash(a2, b2)
    ensures n.Equals(Subtraction(m), operandEquals) ==> n.HashCode(hash) == m.HashCode(hash)
  {
  }

  /** The hash code depends on the operands only, not on the tree. */
  lemma HashCodeIgnoresTree<N>(n: NumericalSubtractionNode<N>, t: Tree, hash: (N, N) -> Int32)
    ensures n.(tree := t).HashCode(hash) == n.HashCode(hash)
  {
  }
}
