/** The Huffman tree (the `Noeud` structure) and the predicates the rest of
    the model states its properties with.

    A `Noeud` with no children is a leaf carrying one symbol; an internal
    `Noeud` always receives both children when it is created, so a tree is
    full binary by construction and the datatype below has no one-child case.
    Frequencies are natural numbers rather than `double`s. */
module Trees {

  /** One input pair of the alphabet: a symbol and its frequency. */
  datatype Weighted = Weighted(sym: char, freq: nat)

  datatype Tree =
    | Leaf(sym: char, weight: nat)
    | Node(left: Tree, right: Tree, weight: nat)

  /** The errors the model reports where the source has undefined behaviour. */
  datatype Error =
    | EmptyAlphabet   // `queue.top()` on an empty priority queue
    | StepFromLeaf    // the decoder follows a null child of a leaf root

  datatype Result<T> = Success(value: T) | Failure(error: Error)

  /** Every internal node weighs the sum of its children, and its left child
      (the first one popped) weighs no more than its right child. */
  predicate WellFormed(t: Tree) {
    match t
    case Leaf(_, _) => true
    case Node(l, r, w) =>
      && w == l.weight + r.weight
      && l.weight <= r.weight
      && WellFormed(l)
      && WellFormed(r)
  }

  /** The (symbol, weight) pairs held by the leaves, with multiplicity. */
  function LeafBag(t: Tree): multiset<Weighted> {
    match t
    case Leaf(s, w) => multiset{Weighted(s, w)}
    case Node(l, r, _) => LeafBag(l) + LeafBag(r)
  }

  /** The symbols held by the leaves. */
  function Symbols(t: Tree): set<char> {
    match t
    case Leaf(s, _) => {s}
    case Node(l, r, _) => Symbols(l) + Symbols(r)
  }

  function CountLeaves(t: Tree): nat {
    match t
    case Leaf(_, _) => 1
    case Node(l, r, _) => CountLeaves(l) + CountLeaves(r)
  }

  function CountNodes(t: Tree): nat {
    match t
    case Leaf(_, _) => 0
    case Node(l, r, _) => 1 + CountNodes(l) + CountNodes(r)
  }

  /** Following the bit string `p` from `t`, '0' to the left child and '1'
      to the right child, ends exactly on a leaf labelled `s`. */
  predicate LeafAt(t: Tree, p: string, s: char)
    decreases |p|
  {
    if |p| == 0 then t.Leaf? && t.sym == s
    else
      && t.Node?
      && (p[0] == '0' || p[0] == '1')
      && LeafAt(if p[0] == '0' then t.left else t.right, p[1..], s)
  }

  /** A full binary tree has one internal node fewer than it has leaves. */
  lemma {:induction false} FullBinary(t: Tree)
    ensures CountNodes(t) + 1 == CountLeaves(t)
    ensures |LeafBag(t)| == CountLeaves(t)
  {
    match t
    case Leaf(_, _) =>
    case Node(l, r, _) =>
      FullBinary(l);
      FullBinary(r);
  }

  /** The set of symbols is the support of the leaf multiset. */
  lemma {:induction false} SymbolsOfLeafBag(t: Tree)
    ensures forall c :: c in Symbols(t) <==> exists w :: Weighted(c, w) in LeafBag(t)
  {
    match t
    case Leaf(s, w) =>
      assert Weighted(s, w) in LeafBag(t);
    case Node(l, r, _) =>
      SymbolsOfLeafBag(l);
      SymbolsOfLeafBag(r);
  }

  /** A path that reaches a leaf is made of bits only, and it is empty
      exactly when the tree is itself that leaf. */
  lemma {:induction false} LeafAtShape(t: Tree, p: string, s: char)
    requires LeafAt(t, p, s)
    ensures s in Symbols(t)
    ensures |p| == 0 <==> t.Leaf?
    ensures forall i :: 0 <= i < |p| ==> p[i] == '0' || p[i] == '1'
    decreases |p|
  {
    if |p| > 0 {
      var child := if p[0] == '0' then t.left else t.right;
      LeafAtShape(child, p[1..], s);
      assert forall i :: 1 <= i < |p| ==> p[i] == p[1..][i - 1];
    }
  }

  /** Two leaf paths of one tree are never a proper prefix of one another:
      if one is a prefix of the other they are the same path to the same
      leaf. */
  lemma {:induction false} LeafPathsPrefixFree(t: Tree, p: string, q: string, a: char, b: char)
    requires LeafAt(t, p, a) && LeafAt(t, q, b)
    requires p <= q
    ensures p == q && a == b
    decreases |p|
  {
    if |p| == 0 {
      assert t.Leaf?;
      assert |q| == 0;
    } else {
      assert q[0] == p[0];
      var child := if p[0] == '0' then t.left else t.right;
      assert p[1..] <= q[1..];
      LeafPathsPrefixFree(child, p[1..], q[1..], a, b);
    }
  }

  /** No symbol labels two leaves. */
  predicate DistinctSymbols(t: Tree) {
    match t
    case Leaf(_, _) => true
    case Node(l, r, _) =>
      && Symbols(l) !! Symbols(r)
      && DistinctSymbols(l)
      && DistinctSymbols(r)
  }

  /** When no symbol labels two leaves, a symbol has one path only. */
  lemma {:induction false} LeafAtUnique(t: Tree, p: string, q: string, c: char)
    requires DistinctSymbols(t)
    requires LeafAt(t, p, c) && LeafAt(t, q, c)
    ensures p == q
    decreases |p|
  {
    if |p| > 0 {
      assert |q| > 0;
      var pc := if p[0] == '0' then t.left else t.right;
      var qc := if q[0] == '0' then t.left else t.right;
      LeafAtShape(pc, p[1..], c);
      LeafAtShape(qc, q[1..], c);
      assert p[0] == q[0];
      LeafAtUnique(pc, p[1..], q[1..], c);
      assert p == [p[0]] + p[1..];
      assert q == [q[0]] + q[1..];
    } else {
      LeafAtShape(t, q, c);
    }
  }
}
