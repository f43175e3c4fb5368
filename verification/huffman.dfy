/** The codec as a whole, as `Texte` drives it: build the tree from the
    alphabet, derive the code table from it, encode a text with the table and
    decode the bits by walking the same in-memory tree. */
module Huffman {
  import opened Trees
  import opened Builder
  import opened CodeTable
  import opened Encoder
  import opened Decoder

  /** Every character of `text` is a symbol of the tree. */
  predicate Over(root: Tree, text: string) {
    forall i :: 0 <= i < |text| ==> text[i] in Symbols(root)
  }

  /** Decoding, with the tree, the bits that its own table gives a text
      returns that text, provided the root is an internal node. */
  lemma {:induction false} RoundTrip(root: Tree, text: string)
    requires root.Node?
    requires Over(root, text)
    ensures Decode(root, Encode(Codes(root), text)) == Success(text)
    decreases |text|
  {
    var codes := Codes(root);
    if |text| == 0 {
      assert Encode(codes, text) == "";
    } else {
      var c, rest := text[0], text[1..];
      OverTail(root, text);
      RoundTrip(root, rest);
      EncodeCons(codes, c, rest);
      WalkCode(root, root, codes[c], c, Encode(codes, rest));
    }
  }

  lemma OverTail(root: Tree, text: string)
    requires |text| > 0 && Over(root, text)
    ensures text == [text[0]] + text[1..]
    ensures text[0] in Symbols(root) && Over(root, text[1..])
  {
    forall i | 0 <= i < |text[1..]| ensures text[1..][i] in Symbols(root) {
      assert text[1..][i] == text[i + 1];
    }
  }

  /** Bits that stop part-way through a code emit nothing after the text
      they follow. */
  lemma {:induction false} TruncatedTail(root: Tree, text: string, c: char, k: nat)
    requires root.Node?
    requires Over(root, text)
    requires c in Symbols(root) && k < |Codes(root)[c]|
    ensures Decode(root, Encode(Codes(root), text) + Codes(root)[c][..k]) == Success(text)
    decreases |text|
  {
    var codes := Codes(root);
    var tail := codes[c][..k];
    if |text| == 0 {
      assert Encode(codes, text) + tail == tail;
      WalkPartialCode(root, root, codes[c], c, k);
    } else {
      var d, rest := text[0], text[1..];
      OverTail(root, text);
      TruncatedTail(root, rest, c, k);
      EncodeCons(codes, d, rest);
      var e := Encode(codes, rest);
      assert Encode(codes, text) == codes[d] + e;
      DecodeAfterCode(root, codes, d, rest, e + tail);
      AppendAssoc(codes[d], e, tail);
    }
  }

  lemma AppendAssoc(a: string, b: string, c: string)
    ensures (a + b) + c == a + (b + c)
  {
  }

  /** A whole code in front of bits that decode to `rest` adds its symbol in
      front of `rest`. */
  lemma DecodeAfterCode(root: Tree, codes: Table, d: char, rest: string, bits: string)
    requires root.Node? && codes == Codes(root) && d in codes
    requires Decode(root, bits) == Success(rest)
    ensures Decode(root, codes[d] + bits) == Success([d] + rest)
  {
    WalkCode(root, root, codes[d], d, bits);
  }

  /** The pipeline: for an alphabet of at least two pairs, any text over its
      symbols comes back from encode-then-decode, and takes at least one bit
      per character. */
  lemma HuffmanRoundTrip(alphabet: seq<Weighted>, text: string)
    requires |alphabet| >= 2
    requires forall i :: 0 <= i < |text| ==> text[i] in AlphabetSymbols(alphabet)
    ensures BuildTree(alphabet).Success?
    ensures var root := BuildTree(alphabet).value;
      && PrefixFree(Codes(root))
      && (forall c :: c in Codes(root) ==> |Codes(root)[c]| > 0)
      && |Encode(Codes(root), text)| >= |text|
      && Decode(root, Encode(Codes(root), text)) == Success(text)
  {
    var root := BuildTree(alphabet).value;
    CodesPrefixFree(root);
    RoundTrip(root, text);
  }

  // ---------------------------------------------------------------------
  // The one-symbol alphabet.

  /** As written, a one-pair alphabet makes the root a leaf whose symbol gets
      the empty code, so a non-empty text encodes to no bits at all and
      decodes to the empty text. */
  lemma SingleSymbolLosesText(alphabet: seq<Weighted>, s: char, w: nat, text: string)
    requires alphabet == [Weighted(s, w)]
    requires |text| > 0
    requires forall i :: 0 <= i < |text| ==> text[i] == s
    ensures BuildTree(alphabet) == Success(Leaf(s, w))
    ensures Codes(Leaf(s, w)) == map[s := ""]
    ensures Encode(Codes(Leaf(s, w)), text) == ""
    ensures Decode(Leaf(s, w), Encode(Codes(Leaf(s, w)), text)) != Success(text)
  {
    var leaf := Leaf(s, w);
    assert Seed(alphabet) == [leaf];
    CodesPrefixFree(leaf);
    EncodeEmptyCodes(Codes(leaf), text);
  }

  /** The code table with the one-symbol case corrected: a root leaf's symbol
      gets the one-bit code "0". */
  function FixedCodes(root: Tree): (r: Table)
    ensures r.Keys == Symbols(root)
    ensures PrefixFree(r) && BitCodes(r)
    ensures forall c :: c in r ==> |r[c]| > 0
  {
    CodesPrefixFree(root);
    if root.Leaf? then map[root.sym := "0"] else Codes(root)
  }

  /** The decoder with the one-symbol case corrected: under a root leaf every
      bit is one whole code and emits the root's symbol. */
  function FixedDecode(root: Tree, bits: string): (r: Result<string>)
    ensures r.Success?
    ensures |r.value| <= |bits|
    ensures root.Leaf? ==> |r.value| == |bits|
    ensures forall i :: 0 <= i < |r.value| ==> r.value[i] in Symbols(root)
  {
    if root.Leaf? then Success(seq(|bits|, _ => root.sym))
    else Decode(root, bits)
  }

  lemma {:induction false} EncodeOneCode(s: char, text: string)
    requires forall i :: 0 <= i < |text| ==> text[i] == s
    ensures |Encode(map[s := "0"], text)| == |text|
    decreases |text|
  {
    if |text| > 0 {
      assert text == [text[0]] + text[1..];
      EncodeCons(map[s := "0"], s, text[1..]);
      EncodeOneCode(s, text[1..]);
    }
  }

  /** With the corrections, every text over the tree's symbols comes back,
      whatever the shape of the tree. */
  lemma FixedRoundTrip(root: Tree, text: string)
    requires Over(root, text)
    ensures FixedDecode(root, Encode(FixedCodes(root), text)) == Success(text)
  {
    if root.Leaf? {
      EncodeOneCode(root.sym, text);
      assert FixedDecode(root, Encode(FixedCodes(root), text)).value == text;
    } else {
      RoundTrip(root, text);
    }
  }

  /** The corrected pipeline: every non-empty alphabet round-trips. */
  lemma FixedHuffmanRoundTrip(alphabet: seq<Weighted>, text: string)
    requires |alphabet| >= 1
    requires forall i :: 0 <= i < |text| ==> text[i] in AlphabetSymbols(alphabet)
    ensures BuildTree(alphabet).Success?
    ensures var root := BuildTree(alphabet).value;
      FixedDecode(root, Encode(FixedCodes(root), text)) == Success(text)
  {
    FixedRoundTrip(BuildTree(alphabet).value, text);
  }

  // ---------------------------------------------------------------------
  // The driver's scenario.

  function ScenarioAlphabet(): seq<Weighted> {
    [Weighted('a', 5), Weighted('b', 9), Weighted('c', 12),
     Weighted('d', 13), Weighted('e', 16), Weighted('f', 45)]
  }

  /** One merge whose two pops take position `i` of `q`, leaving `q1`, and
      then position `k` of `q1`, leaving `q2`. */
  lemma MergeAt(q: seq<Tree>, i: nat, q1: seq<Tree>, k: nat, q2: seq<Tree>, r: seq<Tree>)
    requires |q| >= 2 && FirstMin(q, i) && q1 == q[..i] + q[i + 1..]
    requires FirstMin(q1, k) && q2 == q1[..k] + q1[k + 1..]
    requires r == q2 + [Node(q[i], q1[k], q[i].weight + q1[k].weight)]
    ensures Merge(q) == r
  {
    MinIndexIsFirstMin(q, i);
    MinIndexIsFirstMin(q1, k);
  }

  // The trees of the driver's scenario, named after their weights.
  const A: Tree := Leaf('a', 5)
  const B: Tree := Leaf('b', 9)
  const C: Tree := Leaf('c', 12)
  const D: Tree := Leaf('d', 13)
  const E: Tree := Leaf('e', 16)
  const F: Tree := Leaf('f', 45)
  const N14: Tree := Node(A, B, 14)
  const N25: Tree := Node(C, D, 25)
  const N30: Tree := Node(N14, E, 30)
  const N55: Tree := Node(N25, N30, 55)
  const N100: Tree := Node(F, N55, 100)

  lemma ScenarioMerge1(q: seq<Tree>)
    requires q == [A, B, C, D, E, F]
    ensures Merge(q) == [C, D, E, F, N14]
  {
    var q1 := [B, C, D, E, F];
    var q2 := [C, D, E, F];
    assert q1 == q[..0] + q[1..];
    assert q2 == q1[..0] + q1[1..];
    assert FirstMin(q, 0);
    assert FirstMin(q1, 0);
    MergeAt(q, 0, q1, 0, q2, [C, D, E, F, N14]);
  }

  lemma ScenarioMerge2(q: seq<Tree>)
    requires q == [C, D, E, F, N14]
    ensures Merge(q) == [E, F, N14, N25]
  {
    var q1 := [D, E, F, N14];
    var q2 := [E, F, N14];
    assert q1 == q[..0] + q[1..];
    assert q2 == q1[..0] + q1[1..];
    assert FirstMin(q, 0);
    assert FirstMin(q1, 0);
    MergeAt(q, 0, q1, 0, q2, [E, F, N14, N25]);
  }

  lemma ScenarioMerge3(q: seq<Tree>)
    requires q == [E, F, N14, N25]
    ensures Merge(q) == [F, N25, N30]
  {
    var q1 := [E, F, N25];
    var q2 := [F, N25];
    assert q1 == q[..2] + q[3..];
    assert q2 == q1[..0] + q1[1..];
    assert FirstMin(q, 2);
    assert FirstMin(q1, 0);
    MergeAt(q, 2, q1, 0, q2, [F, N25, N30]);
  }

  lemma ScenarioMerge4(q: seq<Tree>)
    requires q == [F, N25, N30]
    ensures Merge(q) == [F, N55]
  {
    var q1 := [F, N30];
    var q2 := [F];
    assert q1 == q[..1] + q[2..];
    assert q2 == q1[..1] + q1[2..];
    assert FirstMin(q, 1);
    assert FirstMin(q1, 1);
    MergeAt(q, 1, q1, 1, q2, [F, N55]);
  }

  lemma ScenarioMerge5(q: seq<Tree>)
    requires q == [F, N55]
    ensures Merge(q) == [N100]
  {
    var q1 := [N55];
    var q2: seq<Tree> := [];
    assert q1 == q[..0] + q[1..];
    assert q2 == q1[..0] + q1[1..];
    assert FirstMin(q, 0);
    assert FirstMin(q1, 0);
    MergeAt(q, 0, q1, 0, q2, [N100]);
  }

  /** One turn of the build loop. */
  lemma BuildUnfold(q: seq<Tree>)
    requires |q| >= 2 && AllWellFormed(q)
    ensures AllWellFormed(Merge(q))
    ensures Build(q) == Build(Merge(q))
  {
    MergeInvariants(q);
  }

  // The build loop run from each queue of the scenario ends on `N100`.

  lemma ScenarioFrom4(q: seq<Tree>)
    requires q == [F, N55]
    ensures Build(q) == N100
  {
    BuildUnfold(q);
    ScenarioMerge5(q);
    assert Build([N100]) == N100;
  }

  lemma ScenarioFrom3(q: seq<Tree>)
    requires q == [F, N25, N30]
    ensures Build(q) == N100
  {
    BuildUnfold(q);
    ScenarioMerge4(q);
    ScenarioFrom4(Merge(q));
  }

  lemma ScenarioFrom2(q: seq<Tree>)
    requires q == [E, F, N14, N25]
    ensures Build(q) == N100
  {
    BuildUnfold(q);
    ScenarioMerge3(q);
    ScenarioFrom3(Merge(q));
  }

  lemma ScenarioFrom1(q: seq<Tree>)
    requires q == [C, D, E, F, N14]
    ensures Build(q) == N100
  {
    BuildUnfold(q);
    ScenarioMerge2(q);
    ScenarioFrom2(Merge(q));
  }

  lemma ScenarioFrom0(q: seq<Tree>)
    requires q == [A, B, C, D, E, F]
    ensures Build(q) == N100
  {
    BuildUnfold(q);
    ScenarioMerge1(q);
    ScenarioFrom1(Merge(q));
  }

  /** The driver's alphabet a:5 b:9 c:12 d:13 e:16 f:45, in that order,
      builds `N100` in five merges. */
  lemma ScenarioBuild(alphabet: seq<Weighted>)
    requires alphabet == ScenarioAlphabet()
    ensures BuildTree(alphabet) == Success(N100)
  {
    assert Seed(alphabet) == [A, B, C, D, E, F];
    ScenarioFrom0(Seed(alphabet));
  }

  /** In `N100` every symbol labels one leaf, and the scenario's codes are
      paths to those leaves. */
  lemma ScenarioPaths(root: Tree)
    requires root == N100
    ensures DistinctSymbols(root)
    ensures Symbols(root) == {'a', 'b', 'c', 'd', 'e', 'f'}
    ensures LeafAt(root, "1100", 'a') && LeafAt(root, "1101", 'b')
    ensures LeafAt(root, "100", 'c') && LeafAt(root, "101", 'd')
    ensures LeafAt(root, "111", 'e') && LeafAt(root, "0", 'f')
  {
  }

  /** Its table gives f the one-bit code and a and b the longest codes. */
  lemma ScenarioCodes(root: Tree)
    requires root == N100
    ensures Codes(root).Keys == {'a', 'b', 'c', 'd', 'e', 'f'}
    ensures Codes(root)['a'] == "1100" && Codes(root)['b'] == "1101"
    ensures Codes(root)['c'] == "100" && Codes(root)['d'] == "101"
    ensures Codes(root)['e'] == "111" && Codes(root)['f'] == "0"
  {
    ScenarioPaths(root);
    var codes := Codes(root);
    LeafAtUnique(root, codes['a'], "1100", 'a');
    LeafAtUnique(root, codes['b'], "1101", 'b');
    LeafAtUnique(root, codes['c'], "100", 'c');
    LeafAtUnique(root, codes['d'], "101", 'd');
    LeafAtUnique(root, codes['e'], "111", 'e');
    LeafAtUnique(root, codes['f'], "0", 'f');
  }

  /** "abcde" encodes to the 17 bits 1100 1101 100 101 111, which decode
      back to "abcde". */
  lemma ScenarioRoundTrip(root: Tree, text: string, bits: string)
    requires root == N100 && text == "abcde"
    requires bits == "1100" + ("1101" + ("100" + ("101" + "111")))
    ensures Encode(Codes(root), text) == bits
    ensures Decode(root, bits) == Success(text)
  {
    ScenarioCodes(root);
    ScenarioEncode(Codes(root), text);
    ScenarioOver(root, text);
    RoundTrip(root, text);
  }

  lemma ScenarioOver(root: Tree, text: string)
    requires root == N100 && text == "abcde"
    ensures Over(root, text)
  {
    ScenarioPaths(root);
  }

  /** The text of the scenario encoded with a table holding its codes. */
  lemma ScenarioEncode(codes: Table, text: string)
    requires 'a' in codes && codes['a'] == "1100"
    requires 'b' in codes && codes['b'] == "1101"
    requires 'c' in codes && codes['c'] == "100"
    requires 'd' in codes && codes['d'] == "101"
    requires 'e' in codes && codes['e'] == "111"
    requires text == "abcde"
    ensures Encode(codes, text) == "1100" + ("1101" + ("100" + ("101" + "111")))
  {
    assert text == ['a'] + "bcde";
    EncodeCons(codes, 'a', "bcde");
    assert "bcde" == ['b'] + "cde";
    EncodeCons(codes, 'b', "cde");
    assert "cde" == ['c'] + "de";
    EncodeCons(codes, 'c', "de");
    assert "de" == ['d'] + "e";
    EncodeCons(codes, 'd', "e");
    assert "e" == ['e'] + "";
    EncodeCons(codes, 'e', "");
  }
}
