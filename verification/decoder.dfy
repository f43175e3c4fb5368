/** The decoding walk at the end of `lireCodes`: a cursor starts at the root,
    moves to the left child on '0' and to the right child on any other
    character, and whenever it lands on a leaf emits that leaf's symbol and
    goes back to the root. Bits left over after the last leaf emit nothing.
    `bits` is the content of the C string the source reads, before its
    terminating NUL, so the end of `bits` is where the source's loop stops.

    When the root is itself a leaf, the first step reads a null child and
    dereferences it; the model reports that as `StepFromLeaf`. */
module Decoder {
  import opened Trees

  /** The symbols the walk emits from cursor `cur` over `bits`. The cursor is
      always an internal node: it either has just been reset to the root, an
      internal node, or has just moved to an internal child. */
  function Walk(root: Tree, cur: Tree, bits: string): (out: string)
    requires root.Node? && cur.Node?
    requires Symbols(cur) <= Symbols(root)
    ensures |out| <= |bits|
    ensures forall i :: 0 <= i < |out| ==> out[i] in Symbols(root)
    decreases |bits|
  {
    if |bits| == 0 then ""
    else
      var next := if bits[0] == '0' then cur.left else cur.right;
      if next.Leaf? then
        var rest := Walk(root, root, bits[1..]);
        assert next.sym in Symbols(cur);
        assert forall i :: 1 <= i < |[next.sym] + rest| ==> ([next.sym] + rest)[i] == rest[i - 1];
        [next.sym] + rest
      else
        Walk(root, next, bits[1..])
  }

  /** Decoding a whole bit string from the root. */
  function Decode(root: Tree, bits: string): (r: Result<string>)
    ensures r.Failure? <==> root.Leaf? && |bits| > 0
    ensures r.Failure? ==> r.error == StepFromLeaf
    ensures r.Success? ==> |r.value| <= |bits|
    ensures r.Success? ==> forall i :: 0 <= i < |r.value| ==> r.value[i] in Symbols(root)
  {
    if root.Leaf? then
      if |bits| == 0 then Success("") else Failure(StepFromLeaf)
    else
      Success(Walk(root, root, bits))
  }

  /** The loop of `lireCodes` as written: one step per bit, with the cursor
      and the decoded text as mutable state. It computes `Decode`. */
  method DecodeLoop(root: Tree, bits: string) returns (r: Result<string>)
    ensures r == Decode(root, bits)
  {
    var current := root;
    var decoded := "";
    var i := 0;
    while i < |bits|
      invariant 0 <= i <= |bits|
      invariant root.Leaf? ==> current == root && i == 0 && decoded == ""
      invariant root.Node? ==> current.Node? && Symbols(current) <= Symbols(root)
      invariant root.Node? ==> decoded + Walk(root, current, bits[i..]) == Walk(root, root, bits)
    {
      if current.Leaf? {
        return Failure(StepFromLeaf);
      }
      WalkStep(root, current, bits[i..]);
      assert bits[i..][1..] == bits[i + 1..];
      current := if bits[i] == '0' then current.left else current.right;
      if current.Leaf? {
        assert decoded + ([current.sym] + Walk(root, root, bits[i + 1..]))
          == (decoded + [current.sym]) + Walk(root, root, bits[i + 1..]);
        decoded := decoded + [current.sym];
        current := root;
      }
      i := i + 1;
    }
    if root.Node? {
      assert Walk(root, current, bits[i..]) == "";
      assert decoded + "" == decoded;
    }
    return Success(decoded);
  }

  /** One step of the walk: the first bit moves the cursor, and a leaf
      reached emits its symbol and resets the cursor to the root. */
  lemma WalkStep(root: Tree, cur: Tree, bits: string)
    requires root.Node? && cur.Node? && Symbols(cur) <= Symbols(root)
    requires |bits| > 0
    ensures var next := if bits[0] == '0' then cur.left else cur.right;
      && Symbols(next) <= Symbols(root)
      && (next.Leaf? ==> Walk(root, cur, bits) == [next.sym] + Walk(root, root, bits[1..]))
      && (next.Node? ==> Walk(root, cur, bits) == Walk(root, next, bits[1..]))
  {
  }

  /** Reading a whole code from an internal cursor emits the symbol of the
      leaf it reaches and leaves the cursor back at the root. */
  lemma {:induction false} WalkCode(root: Tree, cur: Tree, p: string, c: char, rest: string)
    requires root.Node? && cur.Node? && Symbols(cur) <= Symbols(root)
    requires LeafAt(cur, p, c)
    ensures Walk(root, cur, p + rest) == [c] + Walk(root, root, rest)
    decreases |p|
  {
    assert (p + rest)[0] == p[0];
    assert (p + rest)[1..] == p[1..] + rest;
    var next := if p[0] == '0' then cur.left else cur.right;
    if next.Leaf? {
      assert |p[1..]| == 0;
      assert p[1..] + rest == rest;
    } else {
      WalkCode(root, next, p[1..], c, rest);
    }
  }

  /** A proper prefix of a code, read from an internal cursor, emits nothing:
      trailing bits that stop mid-path are dropped. */
  lemma {:induction false} WalkPartialCode(root: Tree, cur: Tree, p: string, c: char, k: nat)
    requires root.Node? && cur.Node? && Symbols(cur) <= Symbols(root)
    requires LeafAt(cur, p, c)
    requires k < |p|
    ensures Walk(root, cur, p[..k]) == ""
    decreases k
  {
    if k > 0 {
      var next := if p[0] == '0' then cur.left else cur.right;
      assert p[..k][0] == p[0];
      assert p[..k][1..] == p[1..][..k - 1];
      assert next.Node?;
      WalkPartialCode(root, next, p[1..], c, k - 1);
    }
  }
}
