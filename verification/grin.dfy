/** The GRIN driver: the byte-frequency count and the file framing, a 32-bit
    magic number, then the serialised tree, then the encoded payload. */
module Grin {
  import opened BitStream
  import opened Huffman

  /** The magic number that opens every GRIN file. */
  const MAGIC: nat := 0x736

  datatype Error =
    | NotGrinFile      // the first 32 bits are missing or are not the magic number
    | TruncatedTree    // the bits ran out in the middle of the serialised tree

  datatype Result<T> = Ok(value: T) | Err(error: Error)

  lemma MagicFits()
    ensures MAGIC < Pow2(32)
  {
    assert Pow2(12) == 4096;
    Pow2Grows(12, 32);
  }

  /** Counting one more occurrence of `k` raises the sum of the counts below
      `n` by one exactly when `k` is below `n`. */
  lemma {:induction false} SumFreqsIncrement(m: map<Value, int>, k: Value, n: nat)
    requires n <= 512
    ensures SumFreqs(m[k := (if k in m then m[k] else 0) + 1], n) ==
            SumFreqs(m, n) + (if k < n then 1 else 0)
  {
    if n > 0 {
      SumFreqsIncrement(m, k, n - 1);
    }
  }

  lemma {:induction false} SumFreqsEmpty(n: nat)
    requires n <= 512
    ensures SumFreqs(map[], n) == 0
  {
    if n > 0 {
      SumFreqsEmpty(n - 1);
    }
  }

  /** Maps each byte value of `data` to its number of occurrences; values
      that never occur have no key. The counts add up to the input length. */
  method CountFrequencies(data: seq<byte>) returns (freqs: map<Value, int>)
    ensures forall v: Value :: v in freqs <==> v in data
    ensures forall v :: v in freqs ==> v < 256 && freqs[v] == multiset(data)[v]
    ensures SumFreqs(freqs, 512) == |data|
  {
    freqs := map[];
    SumFreqsEmpty(512);
    var i := 0;
    while i < |data|
      invariant 0 <= i <= |data|
      invariant forall v: Value :: v in freqs <==> v in data[..i]
      invariant forall v :: v in freqs ==> freqs[v] == multiset(data[..i])[v]
      invariant SumFreqs(freqs, 512) == i
    {
      var value := data[i];
      var count := if value in freqs then freqs[value] else 0;
      SumFreqsIncrement(freqs, value, 512);
      freqs := freqs[value := count + 1];
      assert data[..i + 1] == data[..i] + [value];
      i := i + 1;
    }
    assert data[..i] == data;
  }

  /** The whole decoding of a file: check the magic number, read the tree,
      decode the payload that follows it. */
  function DecodeFile(bits: seq<bit>): (r: Result<seq<byte>>)
    ensures r == Err(NotGrinFile) <==> |bits| < 32 || FromBits(bits[..32]) != MAGIC
    ensures r.Ok? ==> 42 <= |bits| && |r.value| <= |bits| - 42
  {
    match ReadBits(bits, 32)
    case None => Err(NotGrinFile)
    case Some((magic, rest)) =>
      if magic != MAGIC then Err(NotGrinFile)
      else
        match ReadTree(rest)
        case None => Err(TruncatedTree)
        case Some((tree, payload)) => Ok(Decoded(tree, payload))
  }

  /** The header the encoder writes is 32 bits long and reads as the magic
      number. */
  lemma MagicHeader()
    ensures |ToBits(MAGIC, 32)| == 32 && FromBits(ToBits(MAGIC, 32)) == MAGIC
  {
    MagicFits();
    FromToBits(MAGIC, 32);
  }

  /** After a header holding the magic number and a serialised tree, the
      file decodes to the decoding of whatever follows the tree. */
  lemma FramedRead(header: seq<bit>, t: Node, rest: seq<bit>)
    requires |header| == 32 && FromBits(header) == MAGIC
    ensures DecodeFile(header + WriteTree(t) + rest) == Ok(Decoded(Erase(t), rest))
  {
    var body := WriteTree(t) + rest;
    assert header + WriteTree(t) + rest == header + body;
    assert (header + body)[..32] == header;
    assert (header + body)[32..] == body;
    TreeRoundTrip(t, rest);
  }

  /** The tree read back from a file codes the data as the written one did. */
  lemma ErasedPayload(t: Node, data: seq<byte>)
    requires Covers(t, data)
    ensures Covers(Erase(t), data) && Payload(Erase(t), data) == Payload(t, data)
  {
    CodeTableErase(t, []);
  }

  /** A file framed from a tree that covers the data decodes to that data,
      whatever padding follows it. */
  lemma FileRoundTrip(root: Node, data: seq<byte>, padding: seq<bit>)
    requires Covers(root, data)
    ensures DecodeFile(ToBits(MAGIC, 32) + WriteTree(root) + Payload(root, data) + padding) == Ok(data)
  {
    var header, tree, payload := ToBits(MAGIC, 32), WriteTree(root), Payload(root, data);
    assert header + tree + payload + padding == header + tree + (payload + padding);
    MagicHeader();
    FramedRead(header, root, payload + padding);
    ErasedPayload(root, data);
    PayloadRoundTrip(Erase(root), data, padding);
  }

  /** Counts the bytes, builds the tree, and writes the magic number, the
      tree and the payload. The tree it builds is returned for the record. */
  method Encode(data: seq<byte>) returns (bits: seq<bit>, ghost root: Node)
    ensures forall v: Value ::
      multiset(LeafValues(root))[v] == if v in data || v == EOF then 1 else 0
    ensures Covers(root, data)
    ensures data == [] ==> root == Leaf(EOF, 1)
    ensures bits == ToBits(MAGIC, 32) + WriteTree(root) + Payload(root, data)
    ensures forall padding: seq<bit> :: DecodeFile(bits + padding) == Ok(data)
  {
    var freqs := CountFrequencies(data);
    var tree := new HuffmanTree(freqs);
    root := tree.root;
    forall v: Value | v in data || v == EOF
      ensures v in LeafValues(root)
    {
      assert multiset(LeafValues(root))[v] == 1;
    }
    if data == [] {
      assert multiset(LeafValues(root))[EOF] == 1;
      assert root.Leaf?;
    }
    var header := tree.Serialize();
    var payload := tree.Encode(data);
    CodeTableKeys(root, []);
    bits := ToBits(MAGIC, 32) + header + payload.value;
    forall padding: seq<bit>
      ensures DecodeFile(bits + padding) == Ok(data)
    {
      FileRoundTrip(root, data, padding);
    }
  }

  /** Rejects a file whose first 32 bits are not the magic number before
      reading any tree; otherwise reads the tree and decodes the payload. */
  method Decode(bits: seq<bit>) returns (r: Result<seq<byte>>)
    ensures r == Err(NotGrinFile) <==> |bits| < 32 || FromBits(bits[..32]) != MAGIC
    ensures r == DecodeFile(bits)
  {
    var header := ReadBits(bits, 32);
    if header.None? || header.value.0 != MAGIC {
      return Err(NotGrinFile);
    }
    var parsed := ReadTree(header.value.1);
    if parsed.None? {
      return Err(TruncatedTree);
    }
    var tree := new HuffmanTree.FromRoot(parsed.value.0);
    var out := tree.Decode(parsed.value.1);
    r := Ok(out);
  }

  /** Empty input: the built tree is the EOF leaf alone, the file is 42 bits
      long and is padded with six zero bits; the tree is read back and the
      decoder as written then fails on the padding, while the corrected
      decoder yields the empty output. */
  lemma EmptyInputFailsAsWritten()
    ensures var file := ToBits(MAGIC, 32) + WriteTree(Leaf(EOF, 1));
      var padding: seq<bit> := [0, 0, 0, 0, 0, 0];
      && |file| == 42 && |file + padding| % 8 == 0
      && ReadBits(file + padding, 32) == Some((MAGIC, WriteTree(Leaf(EOF, 1)) + padding))
      && ReadTree(WriteTree(Leaf(EOF, 1)) + padding) == Some((Leaf(EOF, 0), padding))
      && DecodedAsWritten(Leaf(EOF, 0), padding) == None
      && DecodeFile(file + padding) == Ok([])
  {
    var padding: seq<bit> := [0, 0, 0, 0, 0, 0];
    var tree := WriteTree(Leaf(EOF, 1));
    var file := ToBits(MAGIC, 32) + tree;
    assert |file + padding| == 48;
    assert file + padding == ToBits(MAGIC, 32) + (tree + padding);
    MagicFits();
    ReadWrittenBits(MAGIC, 32, tree + padding);
    TreeRoundTrip(Leaf(EOF, 1), padding);
  }
}
