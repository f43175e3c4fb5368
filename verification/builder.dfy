/** The tree builder (`construireArbre`): seed a min-priority queue with one
    leaf per input pair, then repeatedly pop the two lightest nodes, join them
    under a node whose weight is their sum (first popped on the left), push
    that node back, and stop when one node remains.

    The queue is a sequence of trees. `MinIndex` picks the earliest element of
    least weight; the heap layout and tie order of `std::priority_queue` are
    not modelled, and every property below is proved from `MinIndex`'s
    contract alone, so it holds whichever minimum is extracted. */
module Builder {
  import opened Trees

  /** Sum of the weights of the trees in the queue. */
  function QueueWeight(q: seq<Tree>): nat {
    if |q| == 0 then 0 else q[0].weight + QueueWeight(q[1..])
  }

  /** All leaves of all trees in the queue. */
  function QueueBag(q: seq<Tree>): multiset<Weighted> {
    if |q| == 0 then multiset{} else LeafBag(q[0]) + QueueBag(q[1..])
  }

  /** Sum of the input frequencies. */
  function TotalFreq(alphabet: seq<Weighted>): nat {
    if |alphabet| == 0 then 0 else alphabet[0].freq + TotalFreq(alphabet[1..])
  }

  /** The input symbols. */
  function AlphabetSymbols(alphabet: seq<Weighted>): set<char> {
    set i | 0 <= i < |alphabet| :: alphabet[i].sym
  }

  predicate AllWellFormed(q: seq<Tree>) {
    forall i :: 0 <= i < |q| ==> WellFormed(q[i])
  }

  lemma {:induction false} QueueConcat(a: seq<Tree>, b: seq<Tree>)
    ensures QueueWeight(a + b) == QueueWeight(a) + QueueWeight(b)
    ensures QueueBag(a + b) == QueueBag(a) + QueueBag(b)
    decreases |a|
  {
    if |a| == 0 {
      assert a + b == b;
    } else {
      assert (a + b)[0] == a[0];
      assert (a + b)[1..] == a[1..] + b;
      QueueConcat(a[1..], b);
    }
  }

  /** Removing the element at index `i` takes exactly its weight and its
      leaves out of the queue. */
  lemma RemoveAt(q: seq<Tree>, i: nat)
    requires i < |q|
    ensures QueueWeight(q) == q[i].weight + QueueWeight(q[..i] + q[i + 1..])
    ensures QueueBag(q) == LeafBag(q[i]) + QueueBag(q[..i] + q[i + 1..])
  {
    var pre, post := q[..i], q[i + 1..];
    assert q == pre + q[i..];
    assert q[i..][0] == q[i] && q[i..][1..] == post;
    QueueConcat(pre, q[i..]);
    QueueConcat(pre, post);
  }

  /** Index of a minimum-weight tree under `compare`: the earliest one. */
  function MinIndex(q: seq<Tree>): (i: nat)
    requires |q| > 0
    ensures i < |q|
    ensures forall j :: 0 <= j < |q| ==> q[i].weight <= q[j].weight
    ensures forall j :: 0 <= j < i ==> q[j].weight > q[i].weight
    decreases |q|
  {
    if |q| == 1 then 0
    else
      var k := MinIndex(q[1..]) + 1;
      if q[0].weight <= q[k].weight then 0 else k
  }

  /** `k` is the earliest position of least weight in `q`. */
  predicate FirstMin(q: seq<Tree>, k: nat) {
    && k < |q|
    && (forall j :: 0 <= j < |q| ==> q[k].weight <= q[j].weight)
    && (forall j :: 0 <= j < k ==> q[j].weight > q[k].weight)
  }

  /** `MinIndex` is exactly the earliest position of least weight. */
  lemma MinIndexIsFirstMin(q: seq<Tree>, k: nat)
    requires |q| > 0
    ensures MinIndex(q) == k <==> FirstMin(q, k)
  {
  }

  /** `top()`: a minimum-weight tree of the queue. */
  function Top(q: seq<Tree>): (t: Tree)
    requires |q| > 0
    ensures t in q
    ensures forall j :: 0 <= j < |q| ==> t.weight <= q[j].weight
  {
    q[MinIndex(q)]
  }

  /** `pop()`: the queue without the tree `Top` returns. */
  function Pop(q: seq<Tree>): (rest: seq<Tree>)
    requires |q| > 0
    ensures |rest| == |q| - 1
    ensures multiset(q) == multiset(rest) + multiset{Top(q)}
  {
    var i := MinIndex(q);
    RemoveAtMultiset(q, i);
    q[..i] + q[i + 1..]
  }

  lemma RemoveAtMultiset(q: seq<Tree>, i: nat)
    requires i < |q|
    ensures multiset(q) == multiset(q[..i] + q[i + 1..]) + multiset{q[i]}
  {
    assert q == q[..i] + [q[i]] + q[i + 1..];
  }

  /** Popping takes exactly the top's weight and leaves out of the queue and
      keeps the remaining trees. */
  lemma PopTotals(q: seq<Tree>)
    requires |q| > 0
    ensures QueueWeight(q) == Top(q).weight + QueueWeight(Pop(q))
    ensures QueueBag(q) == LeafBag(Top(q)) + QueueBag(Pop(q))
    ensures AllWellFormed(q) ==> WellFormed(Top(q)) && AllWellFormed(Pop(q))
  {
    var i := MinIndex(q);
    assert Top(q) == q[i];
    assert Pop(q) == q[..i] + q[i + 1..];
    RemoveAt(q, i);
    RemoveAtWellFormed(q, i);
  }

  lemma RemoveAtWellFormed(q: seq<Tree>, i: nat)
    requires i < |q|
    ensures AllWellFormed(q) ==> WellFormed(q[i]) && AllWellFormed(q[..i] + q[i + 1..])
  {
    var rest := q[..i] + q[i + 1..];
    forall j | 0 <= j < |rest| ensures rest[j] == if j < i then q[j] else q[j + 1] {
    }
  }

  /** `r` is `q` after one iteration of the build loop: the new node is
      last; it weighs the sum of its children, which are the two popped trees,
      the left one a minimum of the whole queue and the right one a minimum of
      what was left. */
  predicate MergeStep(q: seq<Tree>, r: seq<Tree>) {
    && |q| >= 2
    && |r| == |q| - 1
    && var n := r[|r| - 1];
    && n.Node?
    && n.weight == n.left.weight + n.right.weight
    && (forall j :: 0 <= j < |q| ==> n.left.weight <= q[j].weight)
    && (forall j :: 0 <= j < |r| - 1 ==> n.right.weight <= r[j].weight)
    && multiset(q) == multiset(r[..|r| - 1]) + multiset{n.left, n.right}
  }

  /** One iteration of the build loop: pop two, push their join. */
  function Merge(q: seq<Tree>): (r: seq<Tree>)
    requires |q| >= 2
    ensures |r| == |q| - 1
  {
    var a := Top(q);
    var q1 := Pop(q);
    var b := Top(q1);
    Pop(q1) + [Node(a, b, a.weight + b.weight)]
  }

  /** What one iteration keeps and what it does: the queue shrinks by one,
      its total weight and its leaves are unchanged, every tree in it stays
      well formed, and the new node joins a minimum of the queue (left) with
      a minimum of the rest (right). */
  lemma MergeInvariants(q: seq<Tree>)
    requires |q| >= 2
    ensures MergeStep(q, Merge(q))
    ensures QueueWeight(Merge(q)) == QueueWeight(q)
    ensures QueueBag(Merge(q)) == QueueBag(q)
    ensures AllWellFormed(q) ==> AllWellFormed(Merge(q))
  {
    var a := Top(q);
    var q1 := Pop(q);
    var b := Top(q1);
    var q2 := Pop(q1);
    var r := Merge(q);
    assert r == q2 + [Node(a, b, a.weight + b.weight)];
    PopTotals(q);
    PopTotals(q1);
    MergeShape(q, a, q1, b, q2, r);
    MergeWeight(q, a, q1, b, q2, r);
    MergeBag(q, a, q1, b, q2, r);
    MergeWellFormed(q, a, q1, b, q2, r);
  }

  lemma MergeShape(q: seq<Tree>, a: Tree, q1: seq<Tree>, b: Tree, q2: seq<Tree>, r: seq<Tree>)
    requires |q| >= 2 && |q1| == |q| - 1 && |q2| == |q1| - 1
    requires forall j :: 0 <= j < |q| ==> a.weight <= q[j].weight
    requires forall j :: 0 <= j < |q1| ==> b.weight <= q1[j].weight
    requires multiset(q) == multiset(q1) + multiset{a}
    requires multiset(q1) == multiset(q2) + multiset{b}
    requires r == q2 + [Node(a, b, a.weight + b.weight)]
    ensures MergeStep(q, r)
  {
    var n := Node(a, b, a.weight + b.weight);
    assert r[..|r| - 1] == q2;
    assert r[|r| - 1] == n;
    forall j | 0 <= j < |r| - 1 ensures b.weight <= r[j].weight {
      assert r[j] == q2[j];
      assert q2[j] in multiset(q1);
    }
  }

  lemma MergeWeight(q: seq<Tree>, a: Tree, q1: seq<Tree>, b: Tree, q2: seq<Tree>, r: seq<Tree>)
    requires QueueWeight(q) == a.weight + QueueWeight(q1)
    requires QueueWeight(q1) == b.weight + QueueWeight(q2)
    requires r == q2 + [Node(a, b, a.weight + b.weight)]
    ensures QueueWeight(r) == QueueWeight(q)
  {
    PushWeight(a, b, q2, r);
  }

  lemma MergeBag(q: seq<Tree>, a: Tree, q1: seq<Tree>, b: Tree, q2: seq<Tree>, r: seq<Tree>)
    requires QueueBag(q) == LeafBag(a) + QueueBag(q1)
    requires QueueBag(q1) == LeafBag(b) + QueueBag(q2)
    requires r == q2 + [Node(a, b, a.weight + b.weight)]
    ensures QueueBag(r) == QueueBag(q)
  {
    PushBag(a, b, q2, r);
    Shuffle(LeafBag(a), LeafBag(b), QueueBag(q2), QueueBag(q), QueueBag(q1), QueueBag(r));
  }

  /** Pushing the join of `a` and `b` adds their weights... */
  lemma PushWeight(a: Tree, b: Tree, q: seq<Tree>, r: seq<Tree>)
    requires r == q + [Node(a, b, a.weight + b.weight)]
    ensures QueueWeight(r) == QueueWeight(q) + a.weight + b.weight
  {
    var n := Node(a, b, a.weight + b.weight);
    QueueConcat(q, [n]);
    Singleton([n]);
  }

  /** ... and their leaves. */
  lemma PushBag(a: Tree, b: Tree, q: seq<Tree>, r: seq<Tree>)
    requires r == q + [Node(a, b, a.weight + b.weight)]
    ensures QueueBag(r) == QueueBag(q) + (LeafBag(a) + LeafBag(b))
  {
    var n := Node(a, b, a.weight + b.weight);
    QueueConcat(q, [n]);
    Singleton([n]);
    assert LeafBag(n) == LeafBag(a) + LeafBag(b);
  }

  lemma Shuffle<T>(A: multiset<T>, B: multiset<T>, Q: multiset<T>, X: multiset<T>, Y: multiset<T>, R: multiset<T>)
    requires X == A + Y && Y == B + Q && R == Q + (A + B)
    ensures R == X
  {
  }

  lemma MergeWellFormed(q: seq<Tree>, a: Tree, q1: seq<Tree>, b: Tree, q2: seq<Tree>, r: seq<Tree>)
    requires |q1| > 0
    requires AllWellFormed(q) ==> WellFormed(a) && WellFormed(b) && AllWellFormed(q2)
    requires forall j :: 0 <= j < |q| ==> a.weight <= q[j].weight
    requires multiset(q) == multiset(q1) + multiset{a}
    requires b in multiset(q1)
    requires r == q2 + [Node(a, b, a.weight + b.weight)]
    ensures AllWellFormed(q) ==> AllWellFormed(r)
  {
    if AllWellFormed(q) {
      assert b in multiset(q);
      forall j | 0 <= j < |r| ensures WellFormed(r[j]) {
        if j < |r| - 1 { assert r[j] == q2[j]; }
      }
    }
  }

  /** The build loop: while more than one tree is queued, merge. */
  function Build(q: seq<Tree>): (root: Tree)
    requires |q| >= 1
    requires AllWellFormed(q)
    ensures WellFormed(root)
    ensures root.weight == QueueWeight(q)
    ensures LeafBag(root) == QueueBag(q)
    ensures |q| >= 2 ==> root.Node?
    ensures |q| == 1 ==> root == q[0]
    decreases |q|
  {
    if |q| == 1 then
      Singleton(q);
      q[0]
    else
      var q' := Merge(q);
      MergeInvariants(q);
      Build(q')
  }

  lemma Singleton(q: seq<Tree>)
    requires |q| == 1
    ensures QueueWeight(q) == q[0].weight
    ensures QueueBag(q) == LeafBag(q[0])
  {
    assert q[1..] == [];
  }

  /** One leaf per input pair, in input order. */
  function Seed(alphabet: seq<Weighted>): (q: seq<Tree>)
    ensures |q| == |alphabet|
    ensures forall i :: 0 <= i < |q| ==> q[i] == Leaf(alphabet[i].sym, alphabet[i].freq)
  {
    seq(|alphabet|, i requires 0 <= i < |alphabet| => Leaf(alphabet[i].sym, alphabet[i].freq))
  }

  lemma {:induction false} SeedTotals(alphabet: seq<Weighted>)
    ensures QueueWeight(Seed(alphabet)) == TotalFreq(alphabet)
    ensures QueueBag(Seed(alphabet)) == multiset(alphabet)
    decreases |alphabet|
  {
    if |alphabet| > 0 {
      assert Seed(alphabet)[1..] == Seed(alphabet[1..]);
      SeedTotals(alphabet[1..]);
      assert alphabet == [alphabet[0]] + alphabet[1..];
    }
  }

  /** `construireArbre` minus the code generation: the root of the Huffman
      tree, or `EmptyAlphabet` where the source would call `top()` on an
      empty queue. The root is a full binary tree whose leaves are exactly
      the input pairs, whose weight is the total frequency, and each of whose
      internal nodes weighs the sum of its children, the lighter on the left. */
  function BuildTree(alphabet: seq<Weighted>): (r: Result<Tree>)
    ensures r.Failure? <==> |alphabet| == 0
    ensures r.Failure? ==> r.error == EmptyAlphabet
    ensures r.Success? ==>
      && WellFormed(r.value)
      && r.value.weight == TotalFreq(alphabet)
      && LeafBag(r.value) == multiset(alphabet)
      && Symbols(r.value) == AlphabetSymbols(alphabet)
      && (|alphabet| >= 2 <==> r.value.Node?)
  {
    if |alphabet| == 0 then Failure(EmptyAlphabet)
    else
      var q := Seed(alphabet);
      SeedTotals(alphabet);
      var root := Build(q);
      BagSymbols(root, alphabet);
      FullBinary(root);
      Success(root)
  }

  lemma BagSymbols(t: Tree, alphabet: seq<Weighted>)
    requires LeafBag(t) == multiset(alphabet)
    ensures Symbols(t) == AlphabetSymbols(alphabet)
  {
    SymbolsOfLeafBag(t);
    forall c | c in Symbols(t) ensures c in AlphabetSymbols(alphabet) {
      var w :| Weighted(c, w) in LeafBag(t);
      var i :| 0 <= i < |alphabet| && alphabet[i] == Weighted(c, w);
    }
    forall c | c in AlphabetSymbols(alphabet) ensures c in Symbols(t) {
      var i :| 0 <= i < |alphabet| && alphabet[i].sym == c;
      assert alphabet[i] in multiset(alphabet);
    }
  }
}
