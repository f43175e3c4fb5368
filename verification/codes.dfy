/** The code generator (`genererCodes`): a depth-first walk of the tree that
    appends '0' on a left edge and '1' on a right edge and, at every leaf,
    stores the accumulated path as that leaf's symbol's code. The table is
    threaded through the walk because the source writes into one shared map:
    a later leaf with the same symbol overwrites an earlier one. */
module CodeTable {
  import opened Trees

  type Table = map<char, string>

  /** Every symbol in `syms` has an entry in `m` made of `code` followed by
      a path of `t` that reaches a leaf carrying that symbol. */
  predicate PathsBehind(t: Tree, code: string, m: Table, syms: set<char>) {
    forall c :: c in syms ==>
      && c in m
      && |code| <= |m[c]|
      && m[c][..|code|] == code
      && LeafAt(t, m[c][|code|..], c)
  }

  /** `genererCodes(t, code)` applied to the table `m`. At a leaf the source
      stores the code and then recurses on the two null children, which
      return at once; a node stores nothing and visits left then right.
      Every symbol of `t` ends up with the code prefix followed by a path of
      `t` that reaches a leaf carrying that symbol; every other entry of `m`
      is left as it was. */
  function GenCodes(t: Tree, code: string, m: Table): (r: Table)
    ensures r.Keys == m.Keys + Symbols(t)
    ensures PathsBehind(t, code, r, Symbols(t))
    ensures forall c :: c in m && c !in Symbols(t) ==> r[c] == m[c]
    decreases t
  {
    match t
    case Leaf(s, _) =>
      assert m[s := code][s][|code|..] == [];
      m[s := code]
    case Node(l, rt, _) =>
      var m1 := GenCodes(l, code + "0", m);
      var m2 := GenCodes(rt, code + "1", m1);
      GenCodesNode(t, code, m, m1, m2);
      m2
  }

  /** The inductive step of `GenCodes` at an internal node. */
  lemma GenCodesNode(t: Tree, code: string, m: Table, m1: Table, m2: Table)
    requires t.Node?
    requires m1.Keys == m.Keys + Symbols(t.left)
    requires PathsBehind(t.left, code + "0", m1, Symbols(t.left))
    requires forall c :: c in m && c !in Symbols(t.left) ==> m1[c] == m[c]
    requires m2.Keys == m1.Keys + Symbols(t.right)
    requires PathsBehind(t.right, code + "1", m2, Symbols(t.right))
    requires forall c :: c in m1 && c !in Symbols(t.right) ==> m2[c] == m1[c]
    ensures m2.Keys == m.Keys + Symbols(t)
    ensures PathsBehind(t, code, m2, Symbols(t))
    ensures forall c :: c in m && c !in Symbols(t) ==> m2[c] == m[c]
  {
    SidePaths(t, code, '0', m1);
    SidePaths(t, code, '1', m2);
    JoinPaths(t, code, m1, m2);
  }

  /** The codes of the left side survive the walk of the right side. */
  lemma JoinPaths(t: Tree, code: string, m1: Table, m2: Table)
    requires t.Node?
    requires m2.Keys == m1.Keys + Symbols(t.right)
    requires PathsBehind(t, code, m1, Symbols(t.left))
    requires PathsBehind(t, code, m2, Symbols(t.right))
    requires forall c :: c in m1 && c !in Symbols(t.right) ==> m2[c] == m1[c]
    ensures PathsBehind(t, code, m2, Symbols(t))
  {
    assert Symbols(t) == Symbols(t.left) + Symbols(t.right);
    forall c | c in Symbols(t)
      ensures c in m2 && |code| <= |m2[c]| && m2[c][..|code|] == code && LeafAt(t, m2[c][|code|..], c)
    {
      if c !in Symbols(t.right) {
        assert c in Symbols(t.left) && c in m1;
        assert m2[c] == m1[c];
      }
    }
  }

  /** Every code the walk of one child stored, behind `code + [bit]`, is a
      code behind `code` of the node. */
  lemma SidePaths(t: Tree, code: string, bit: char, m: Table)
    requires t.Node? && (bit == '0' || bit == '1')
    requires PathsBehind(if bit == '0' then t.left else t.right, code + [bit], m,
                         Symbols(if bit == '0' then t.left else t.right))
    ensures PathsBehind(t, code, m, Symbols(if bit == '0' then t.left else t.right))
  {
    var side := if bit == '0' then t.left else t.right;
    forall c | c in Symbols(side)
      ensures c in m && |code| <= |m[c]| && m[c][..|code|] == code && LeafAt(t, m[c][|code|..], c)
    {
      ExtendPath(t, code, bit, m[c], c);
    }
  }

  /** A path of the child on the `bit` side, behind `code + [bit]`, is a path
      of the node itself behind `code`. */
  lemma ExtendPath(t: Tree, code: string, bit: char, p: string, c: char)
    requires t.Node? && (bit == '0' || bit == '1')
    requires |code| + 1 <= |p| && p[..|code| + 1] == code + [bit]
    requires LeafAt(if bit == '0' then t.left else t.right, p[|code| + 1..], c)
    ensures |code| <= |p| && p[..|code|] == code && LeafAt(t, p[|code|..], c)
  {
    var k := |code|;
    assert p[..k] == p[..k + 1][..k];
    assert p[k] == p[..k + 1][k];
    assert p[k..][1..] == p[k + 1..];
  }

  /** The table built for a whole tree, starting from the empty map (the
      source's table is empty when `construireArbre` runs). */
  function Codes(t: Tree): (r: Table)
    ensures r.Keys == Symbols(t)
    ensures forall c :: c in r ==> LeafAt(t, r[c], c)
  {
    var r := GenCodes(t, "", map[]);
    assert forall c :: c in r ==> c in Symbols(t) && r[c][|""|..] == r[c];
    r
  }

  /** No code of the table is a prefix of a different symbol's code. */
  predicate PrefixFree(codes: Table) {
    forall a, b :: a in codes && b in codes && a != b ==> !(codes[a] <= codes[b])
  }

  /** The codes of a tree are strings of '0' and '1' and prefix-free; when the
      root is an internal node (at least two leaves) every code is
      non-empty, and when the root is a leaf its symbol gets the empty code. */
  lemma {:induction false} CodesPrefixFree(t: Tree)
    ensures PrefixFree(Codes(t))
    ensures forall c, i :: c in Codes(t) && 0 <= i < |Codes(t)[c]| ==>
      Codes(t)[c][i] == '0' || Codes(t)[c][i] == '1'
    ensures t.Node? ==> forall c :: c in Codes(t) ==> |Codes(t)[c]| > 0
    ensures t.Leaf? ==> Codes(t) == map[t.sym := ""]
  {
    var codes := Codes(t);
    forall a, b | a in codes && b in codes && a != b ensures !(codes[a] <= codes[b]) {
      if codes[a] <= codes[b] {
        LeafPathsPrefixFree(t, codes[a], codes[b], a, b);
      }
    }
    forall c | c in codes
      ensures forall i :: 0 <= i < |codes[c]| ==> codes[c][i] == '0' || codes[c][i] == '1'
      ensures t.Node? ==> |codes[c]| > 0
    {
      LeafAtShape(t, codes[c], c);
    }
    if t.Leaf? {
      assert t.sym in codes;
      LeafAtShape(t, codes[t.sym], t.sym);
    }
  }
}
