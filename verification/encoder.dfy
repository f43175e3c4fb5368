/** The encoder (`encoder`): the concatenation, in text order, of the code of
    every character. The source reads the table with `codes[ch]`, which for a
    character without an entry inserts the empty string and yields it, so such
    a character contributes no bits and leaves a new empty entry behind. */
module Encoder {
  import opened CodeTable

  /** `codes[ch]` read as a value. */
  function Lookup(codes: Table, ch: char): string {
    if ch in codes then codes[ch] else ""
  }

  /** Symbols of `text` that have an entry in the table. */
  predicate Covered(codes: Table, text: string) {
    forall i :: 0 <= i < |text| ==> text[i] in codes
  }

  /** The characters of `text`. */
  function Chars(text: string): set<char> {
    set i | 0 <= i < |text| :: text[i]
  }

  /** The table's codes are all strings of '0' and '1'. */
  predicate BitCodes(codes: Table) {
    forall c, i :: c in codes && 0 <= i < |codes[c]| ==> codes[c][i] == '0' || codes[c][i] == '1'
  }

  function Encode(codes: Table, text: string): (bits: string)
    ensures BitCodes(codes) ==> forall i :: 0 <= i < |bits| ==> bits[i] == '0' || bits[i] == '1'
    ensures (forall i :: 0 <= i < |text| ==> text[i] !in codes) ==> bits == ""
    ensures (forall c :: c in codes ==> |codes[c]| > 0) && Covered(codes, text) ==> |bits| >= |text|
    decreases |text|
  {
    if |text| == 0 then ""
    else
      var head := Lookup(codes, text[0]);
      var tail := Encode(codes, text[1..]);
      assert forall i :: 0 <= i < |text[1..]| ==> text[1..][i] == text[i + 1];
      assert forall i :: |head| <= i < |head + tail| ==> (head + tail)[i] == tail[i - |head|];
      head + tail
  }

  /** Encoding is a homomorphism from texts to bit strings: the code of a
      concatenation is the concatenation of the codes. */
  lemma {:induction false} EncodeAppend(codes: Table, a: string, b: string)
    ensures Encode(codes, a + b) == Encode(codes, a) + Encode(codes, b)
    decreases |a|
  {
    if |a| == 0 {
      assert a + b == b;
    } else {
      assert (a + b)[0] == a[0];
      assert (a + b)[1..] == a[1..] + b;
      EncodeAppend(codes, a[1..], b);
    }
  }

  /** The sum of the lengths of the codes the characters of `text` read. */
  function CodeLengths(codes: Table, text: string): nat
    decreases |text|
  {
    if |text| == 0 then 0 else |Lookup(codes, text[0])| + CodeLengths(codes, text[1..])
  }

  /** The encoding is as long as the codes of its characters put together. */
  lemma {:induction false} EncodeLength(codes: Table, text: string)
    ensures |Encode(codes, text)| == CodeLengths(codes, text)
    decreases |text|
  {
    if |text| > 0 {
      EncodeLength(codes, text[1..]);
    }
  }

  /** The first character contributes exactly its code: the stored one, or
      nothing for a character without an entry. */
  lemma EncodeCons(codes: Table, c: char, text: string)
    ensures c in codes ==> Encode(codes, [c] + text) == codes[c] + Encode(codes, text)
    ensures c !in codes ==> Encode(codes, [c] + text) == Encode(codes, text)
  {
    assert ([c] + text)[1..] == text;
  }

  /** A table whose every code is empty encodes any text to no bits. */
  lemma {:induction false} EncodeEmptyCodes(codes: Table, text: string)
    requires forall c :: c in codes ==> codes[c] == ""
    ensures Encode(codes, text) == ""
    decreases |text|
  {
    if |text| > 0 {
      EncodeEmptyCodes(codes, text[1..]);
    }
  }

  /** The table after `encoder` returns: every character of `text` missing
      from `codes` now has an empty entry; the existing entries are kept. */
  function TableAfterEncode(codes: Table, text: string): (r: Table)
    ensures r.Keys == codes.Keys + Chars(text)
    ensures forall c :: c in codes ==> r[c] == codes[c]
    ensures forall c :: c in r && c !in codes ==> r[c] == ""
    decreases |text|
  {
    if |text| == 0 then codes
    else
      var r := TableAfterEncode(if text[0] in codes then codes else codes[text[0] := ""], text[1..]);
      assert Chars(text) == {text[0]} + Chars(text[1..]) by {
        forall x | x in Chars(text) ensures x in {text[0]} + Chars(text[1..]) {
          var i :| 0 <= i < |text| && text[i] == x;
          if i > 0 { assert text[1..][i - 1] == x; }
        }
      }
      r
  }

  /** The empty entries the encoder inserts change nothing for any later
      encoding with the enlarged table. */
  lemma {:induction false} EncodeWithEnlargedTable(codes: Table, text: string, later: string)
    ensures Encode(TableAfterEncode(codes, text), later) == Encode(codes, later)
    decreases |later|
  {
    if |later| > 0 {
      EncodeWithEnlargedTable(codes, text, later[1..]);
    }
  }
}
